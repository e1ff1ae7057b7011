/**
 Deletion of directory trees by ws_expirer and ws_release. Any call to the system may fail, and the
 deadline may pass at any directory. Nothing is lost without being counted, what is left is what a
 failure kept, and every descriptor is closed exactly once.
 */
module Rmtree {
  /** An entry of a directory: anything that is no directory, or a directory. */
  datatype Entry = File(name: string) | Dir(name: string, entries: seq<Entry>)

  type Path = seq<string>

  /**
   The calls that can go wrong at a path: the deadline check and fdopendir on a directory, readdir not
   returning an entry, stat on an entry of unknown type, and then fstatat, openat, the check that the
   descriptor is for the same directory, and unlinkat.
   */
  datatype Call = Deadline | OpenDir | List | Type | Stat | Open | Check | Remove

  type Faults = set<(Path, Call)>

  // ----- what is left -----

  predicate DirFails(f: Faults, deadline: int, q: Path) {
    (deadline != 0 && (q, Deadline) in f) || (q, OpenDir) in f
  }

  /** A directory is not entered: taken for a file and not unlinked as such, or not opened safely. */
  predicate EntryFails(f: Faults, q: Path) {
    (q, List) in f || (q, Type) in f || (q, Stat) in f || (q, Open) in f || (q, Check) in f
  }

  /** What rmtree_fd leaves of a directory at a path. */
  function Left(es: seq<Entry>, path: Path, f: Faults, deadline: int): seq<Entry>
    decreases es, |es| + 1
  {
    if DirFails(f, deadline, path) then es else LeftOfFirst(es, |es|, path, f, deadline)
  }

  function LeftOfFirst(es: seq<Entry>, n: nat, path: Path, f: Faults, deadline: int): seq<Entry>
    requires n <= |es|
    decreases es, n
  {
    if n == 0 then [] else LeftOfFirst(es, n - 1, path, f, deadline) + LeftOf(es[n - 1], path, f, deadline)
  }

  /** Unlinking fails on a directory that is not empty. */
  function LeftOf(e: Entry, path: Path, f: Faults, deadline: int): seq<Entry>
    decreases e
  {
    var q := path + [e.name];
    match e
    case File(_) => if (q, List) in f || (q, Remove) in f then [e] else []
    case Dir(name, es) =>
      if EntryFails(f, q) then [e] else
      var left := Left(es, q, f, deadline);
      if left == [] && (q, Remove) !in f then [] else [Dir(name, left)]
  }

  /** The number of files in a list of entries. */
  function Files(es: seq<Entry>): nat
    decreases es
  {
    if es == [] then 0 else FilesOf(es[0]) + Files(es[1..])
  }

  function FilesOf(e: Entry): nat
    decreases e
  {
    match e case File(_) => 1 case Dir(_, es) => Files(es)
  }

  lemma {:induction false} FilesConcat(a: seq<Entry>, b: seq<Entry>)
    ensures Files(a + b) == Files(a) + Files(b)
  {
    if a == [] {
      assert a + b == b;
    } else {
      FilesConcat(a[1..], b);
      assert (a + b)[1..] == a[1..] + b;
    }
  }

  /** Every file counts once, wherever it is; directories do not count. */
  lemma FilesAreCounted(name: string, below: seq<Entry>, rest: seq<Entry>)
    ensures Files([]) == 0 && Files([File(name)] + rest) == 1 + Files(rest)
    ensures Files([Dir(name, below)] + rest) == Files(below) + Files(rest)
  {
    assert ([File(name)] + rest)[1..] == rest;
    assert ([Dir(name, below)] + rest)[1..] == rest;
  }

  // ----- the program -----

  /** The open file descriptors of the process. */
  class Descriptors {
    var open: set<nat>
    var next: nat

    ghost predicate Valid()
      reads this
    {
      forall fd <- open :: fd < next
    }

    constructor ()
      ensures Valid() && open == {}
    {
      open, next := {}, 0;
    }

    method Open() returns (fd: nat)
      requires Valid()
      modifies this
      ensures Valid() && fd !in old(open) && open == old(open) + {fd}
    {
      fd := next;
      open, next := open + {fd}, next + 1;
    }

    /** Closing twice, or what was never opened, is not allowed. */
    method Close(fd: nat)
      requires Valid() && fd in open
      modifies this
      ensures Valid() && open == old(open) - {fd}
    {
      open := open - {fd};
    }
  }

  /** rmtree_fd: takes ownership of the descriptor. */
  method RmtreeFd(fds: Descriptors, topfd: nat, es: seq<Entry>, path: Path, deadline: int, f: Faults)
    returns (deleted: nat, left: seq<Entry>)
    requires fds.Valid() && topfd in fds.open
    modifies fds
    ensures fds.Valid() && fds.open == old(fds.open) - {topfd}
    ensures left == Left(es, path, f, deadline)
    ensures deleted + Files(left) == Files(es)
    decreases es
  {
    deleted := 0;
    if deadline != 0 && (path, Deadline) in f {
      fds.Close(topfd);
      return deleted, es;
    }
    if (path, OpenDir) in f {
      fds.Close(topfd);
      return deleted, es;
    }
    left := [];
    for i := 0 to |es|
      invariant fds.Valid() && fds.open == old(fds.open)
      invariant left == LeftOfFirst(es, i, path, f, deadline)
      invariant deleted + Files(left) == Files(es[..i])
    {
      hide Files, FilesOf, LeftOf;
      if (path + [es[i].name], List) in f {
        left := left + [es[i]];
        FilesAppended(es, i, left[..|left| - 1], [es[i]]);
      } else {
        var count, kept := RmtreeEntry(fds, es[i], path, deadline, f);
        FilesAppended(es, i, left, kept);
        left, deleted := left + kept, deleted + count;
      }
    }
    assert es[..|es|] == es;
    fds.Close(topfd);
  }

  lemma FilesAppended(es: seq<Entry>, i: nat, left: seq<Entry>, kept: seq<Entry>)
    requires i < |es|
    ensures Files(left + kept) == Files(left) + Files(kept)
    ensures Files(es[..i + 1]) == Files(es[..i]) + FilesOf(es[i]) && Files([es[i]]) == FilesOf(es[i])
  {
    FilesConcat(left, kept);
    FilesConcat(es[..i], [es[i]]);
    assert es[..i + 1] == es[..i] + [es[i]];
  }

  /** The body of its loop, for an entry that readdir returned. */
  method RmtreeEntry(fds: Descriptors, e: Entry, path: Path, deadline: int, f: Faults)
    returns (deleted: nat, left: seq<Entry>)
    requires fds.Valid() && (path + [e.name], List) !in f
    modifies fds
    ensures fds.Valid() && fds.open == old(fds.open)
    ensures left == LeftOf(e, path, f, deadline)
    ensures deleted + Files(left) == FilesOf(e)
    decreases e
  {
    var q := path + [e.name];
    deleted, left := 0, [e];
    var isdir := e.Dir? && (q, Type) !in f;
    if isdir {
      if (q, Stat) in f {
        return;
      }
      if (q, Open) in f {
        return;
      }
      var dirfd := fds.Open();
      if (q, Check) !in f {
        var below;
        deleted, below := RmtreeFd(fds, dirfd, e.entries, q, deadline, f);
        left := [Dir(e.name, below)];
        if below == [] && (q, Remove) !in f {
          left := [];
        }
      } else {
        fds.Close(dirfd);
      }
    } else if e.File? && (q, Remove) !in f {
      deleted, left := 1, [];
    }
  }

  /** What is left of the directory a path names, by rmtree_below. */
  function LeftBelow(top: Entry, path: Path, f: Faults, deadline: int): Entry {
    if top.File? || (path, Stat) in f || (path, Open) in f || (path, Check) in f then top
    else Dir(top.name, Left(top.entries, path, f, deadline))
  }

  method RmtreeBelow(fds: Descriptors, top: Entry, path: Path, f: Faults) returns (deleted: nat, left: Entry)
    requires fds.Valid()
    modifies fds
    ensures fds.Valid() && fds.open == old(fds.open)
    ensures left == LeftBelow(top, path, f, 0)
    ensures deleted + FilesOf(left) == FilesOf(top)
  {
    deleted, left := 0, top;
    if (path, Stat) in f {
      return;
    }
    if top.Dir? {
      if (path, Open) in f {
        return;
      }
      var dirfd := fds.Open();
      if (path, Check) !in f {
        var entries;
        deleted, entries := RmtreeFd(fds, dirfd, top.entries, path, 0, f);
        left := Dir(top.name, entries);
      } else {
        fds.Close(dirfd);
      }
    }
  }

  /** rmtree: deletes the contents, then the directory itself; what is no directory stays. */
  method Rmtree(fds: Descriptors, top: Entry, path: Path, deadline: int, f: Faults)
    returns (deleted: nat, left: seq<Entry>)
    requires fds.Valid()
    modifies fds
    ensures fds.Valid() && fds.open == old(fds.open)
    ensures var below := LeftBelow(top, path, f, deadline);
      var fails := (path, Remove) in f || (path, Stat) in f || (path, Open) in f || (path, Check) in f;
      left == if below == Dir(top.name, []) && !fails then [] else [below]
    ensures deleted + Files(left) == FilesOf(top)
  {
    deleted, left := 0, [top];
    if (path, Stat) in f {
      return;
    }
    if top.Dir? {
      if (path, Open) in f {
        return;
      }
      var dirfd := fds.Open();
      if (path, Check) !in f {
        var entries;
        deleted, entries := RmtreeFd(fds, dirfd, top.entries, path, deadline, f);
        left := [Dir(top.name, entries)];
        if entries == [] && (path, Remove) !in f {
          left := [];
        }
      } else {
        fds.Close(dirfd);
      }
    }
  }

  // ----- a sub-tree -----

  /** Some of the entries in the same order, directories with some of theirs. */
  predicate Within(l: seq<Entry>, d: seq<Entry>)
    decreases d
  {
    if d == [] then l == []
    else (l != [] && EntryWithin(l[0], d[0]) && Within(l[1..], d[1..])) || Within(l, d[1..])
  }

  predicate EntryWithin(l: Entry, d: Entry)
    decreases d
  {
    l.name == d.name && match d
      case File(_) => l.File?
      case Dir(_, es) => l.Dir? && Within(l.entries, es)
  }

  lemma {:induction false} WithinItself(d: seq<Entry>)
    ensures Within(d, d)
    decreases d
  {
    if d != [] {
      EntryWithinItself(d[0]);
      WithinItself(d[1..]);
    }
  }

  lemma {:induction false} EntryWithinItself(e: Entry)
    ensures EntryWithin(e, e)
    decreases e
  {
    if e.Dir? {
      WithinItself(e.entries);
    }
  }

  lemma {:induction false} WithinConcat(a: seq<Entry>, b: seq<Entry>, c: seq<Entry>, d: seq<Entry>)
    requires Within(a, b) && Within(c, d)
    ensures Within(a + c, b + d)
    decreases |b|
  {
    if b == [] {
      assert a + c == c && b + d == d;
    } else {
      assert (b + d)[1..] == b[1..] + d;
      if Within(a, b[1..]) {
        WithinConcat(a, b[1..], c, d);
      } else {
        WithinConcat(a[1..], b[1..], c, d);
        assert (a + c)[1..] == a[1..] + c;
      }
    }
  }

  /** What is left is part of what was there. */
  lemma {:induction false} LeftIsWithin(es: seq<Entry>, path: Path, f: Faults, deadline: int)
    ensures Within(Left(es, path, f, deadline), es)
    decreases es, |es| + 1
  {
    if DirFails(f, deadline, path) {
      WithinItself(es);
    } else {
      LeftOfFirstIsWithin(es, |es|, path, f, deadline);
      assert es[..|es|] == es;
    }
  }

  lemma {:induction false} LeftOfFirstIsWithin(es: seq<Entry>, n: nat, path: Path, f: Faults, deadline: int)
    requires n <= |es|
    ensures Within(LeftOfFirst(es, n, path, f, deadline), es[..n])
    decreases es, n
  {
    if n > 0 {
      LeftOfFirstIsWithin(es, n - 1, path, f, deadline);
      LeftOfIsWithin(es[n - 1], path, f, deadline);
      var first, last := LeftOfFirst(es, n - 1, path, f, deadline), LeftOf(es[n - 1], path, f, deadline);
      WithinConcat(first, es[..n - 1], last, [es[n - 1]]);
      assert es[..n] == es[..n - 1] + [es[n - 1]];
    }
  }

  lemma {:induction false} LeftOfIsWithin(e: Entry, path: Path, f: Faults, deadline: int)
    ensures Within(LeftOf(e, path, f, deadline), [e])
    decreases e
  {
    WithinItself([e]);
    if e.Dir? {
      LeftIsWithin(e.entries, path + [e.name], f, deadline);
    }
    var left := LeftOf(e, path, f, deadline);
    assert [e][1..] == [];
    assert left != [] ==> left[1..] == [];
  }

  // ----- exactly what a failure keeps -----

  /** There is a file at a path below a directory. */
  predicate HasFile(es: seq<Entry>, p: Path)
    decreases |p|
  {
    p != [] && exists i :: 0 <= i < |es| && FileIn(es[i], p)
  }

  predicate FileIn(e: Entry, p: Path)
    requires p != []
    decreases |p|, 0
  {
    e.name == p[0] && if |p| == 1 then e.File? else e.Dir? && HasFile(e.entries, p[1..])
  }

  /** A call failed on the way from a directory to a file below it, or on the file. */
  predicate Obstructed(path: Path, p: Path, f: Faults, deadline: int)
    decreases |p|
  {
    p != [] &&
    var q := path + [p[0]];
    || DirFails(f, deadline, path)
    || (if |p| == 1 then (q, List) in f || (q, Remove) in f else EntryFails(f, q) || Obstructed(q, p[1..], f, deadline))
  }

  lemma {:induction false} FileIsLeft(es: seq<Entry>, path: Path, p: Path, f: Faults, deadline: int)
    ensures HasFile(Left(es, path, f, deadline), p) <==> HasFile(es, p) && Obstructed(path, p, f, deadline)
    decreases |p|, 1
  {
    if p != [] && !DirFails(f, deadline, path) {
      var left := Left(es, path, f, deadline);
      LeftMembers(es, |es|, path, f, deadline);
      assert left == LeftOfFirst(es, |es|, path, f, deadline);
      forall i | 0 <= i < |es|
        ensures HasFile(LeftOf(es[i], path, f, deadline), p) <==> FileIn(es[i], p) && Obstructed(path, p, f, deadline)
      {
        FileOfLeft(es[i], path, p, f, deadline);
      }
      hide LeftOf, FileIn, Obstructed, Left;
      if HasFile(left, p) {
        var k :| 0 <= k < |left| && FileIn(left[k], p);
        assert left[k] in left;
        var i :| 0 <= i < |es| && left[k] in LeftOf(es[i], path, f, deadline);
        HasFileMember(LeftOf(es[i], path, f, deadline), left[k], p);
      }
      if HasFile(es, p) && Obstructed(path, p, f, deadline) {
        var i :| 0 <= i < |es| && FileIn(es[i], p);
        var kept := LeftOf(es[i], path, f, deadline);
        var k :| 0 <= k < |kept| && FileIn(kept[k], p);
        assert kept[k] in left;
        HasFileMember(left, kept[k], p);
      }
    }
  }

  lemma HasFileMember(es: seq<Entry>, e: Entry, p: Path)
    requires p != [] && e in es && FileIn(e, p)
    ensures HasFile(es, p)
  {
    hide FileIn;
  }

  lemma HasFileSingle(e: Entry, p: Path)
    requires p != []
    ensures HasFile([e], p) <==> FileIn(e, p)
  {
    hide FileIn;
    if FileIn(e, p) {
      assert [e][0] == e;
    }
  }

  lemma {:induction false} FileOfLeft(e: Entry, path: Path, p: Path, f: Faults, deadline: int)
    requires p != [] && !DirFails(f, deadline, path)
    ensures HasFile(LeftOf(e, path, f, deadline), p) <==> FileIn(e, p) && Obstructed(path, p, f, deadline)
    decreases |p|, 0
  {
    var q, left := path + [e.name], LeftOf(e, path, f, deadline);
    if left != [] {
      HasFileSingle(left[0], p);
    }
    if e.Dir? && !EntryFails(f, q) && |p| > 1 {
      FileIsLeft(e.entries, q, p[1..], f, deadline);
      hide EntryFails, HasFile, Left;
      NoFileInNothing(p[1..]);
    }
    NoFileInNothing(p);
  }

  lemma NoFileInNothing(p: Path)
    ensures !HasFile([], p)
  {
  }

  /** The entries left are those left of each entry. */
  lemma {:induction false} LeftMembers(es: seq<Entry>, n: nat, path: Path, f: Faults, deadline: int)
    requires n <= |es|
    ensures forall x :: x in LeftOfFirst(es, n, path, f, deadline) <==>
              exists i :: 0 <= i < n && x in LeftOf(es[i], path, f, deadline)
  {
    if n > 0 {
      LeftMembers(es, n - 1, path, f, deadline);
      hide LeftOf;
    }
  }

  /** One of the directories on the way could not be gone through: the top at k = 0, then those below it. */
  predicate BlockedAt(path: Path, p: Path, k: nat, f: Faults, deadline: int)
    requires k < |p|
  {
    var q := path + p[..k];
    || (deadline != 0 && (q, Deadline) in f) || (q, OpenDir) in f
    || (k > 0 && ((q, List) in f || (q, Type) in f || (q, Stat) in f || (q, Open) in f || (q, Check) in f))
  }

  /** A call failed on one of the directories that lead to a file, or on the file. */
  predicate SomeCallFailed(path: Path, p: Path, f: Faults, deadline: int) {
    p != [] && ((exists k :: 0 <= k < |p| && BlockedAt(path, p, k, f, deadline))
                || (path + p, List) in f || (path + p, Remove) in f)
  }

  /** What blocks the way below the first directory, seen from there. */
  lemma BlockedBelow(path: Path, p: Path, k: nat, f: Faults, deadline: int)
    requires 1 <= k < |p|
    ensures var q := path + [p[0]];
      BlockedAt(path, p, k, f, deadline) <==> BlockedAt(q, p[1..], k - 1, f, deadline) || (k == 1 && EntryFails(f, q))
  {
    assert path + [p[0]] + p[1..][..k - 1] == path + p[..k];
    assert k == 1 ==> path + p[..k] == path + [p[0]];
  }

  lemma {:induction false} ObstructedIff(path: Path, p: Path, f: Faults, deadline: int)
    ensures Obstructed(path, p, f, deadline) <==> SomeCallFailed(path, p, f, deadline)
    decreases |p|
  {
    if p != [] {
      var q, rest := path + [p[0]], p[1..];
      assert path + p[..0] == path && q + rest == path + p;
      assert BlockedAt(path, p, 0, f, deadline) <==> DirFails(f, deadline, path);
      if |p| == 1 {
        assert path + p == q;
      } else {
        ObstructedIff(q, rest, f, deadline);
        BlockedBelow(path, p, 1, f, deadline);
        FailedBelow(path, p, f, deadline);
        hide SomeCallFailed, BlockedAt;
      }
    }
  }

  lemma FailedBelow(path: Path, p: Path, f: Faults, deadline: int)
    requires |p| > 1
    ensures var q := path + [p[0]];
      SomeCallFailed(path, p, f, deadline)
      <==> DirFails(f, deadline, path) || EntryFails(f, q) || SomeCallFailed(q, p[1..], f, deadline)
  {
    var q, rest := path + [p[0]], p[1..];
    assert path + p[..0] == path && q + rest == path + p;
    assert BlockedAt(path, p, 0, f, deadline) <==> DirFails(f, deadline, path);
    hide BlockedAt;
    BlockedBelow(path, p, 1, f, deadline);
    if k :| 0 <= k < |p| && BlockedAt(path, p, k, f, deadline) {
      if k > 0 {
        BlockedBelow(path, p, k, f, deadline);
      }
    }
    if k :| 0 <= k < |rest| && BlockedAt(q, rest, k, f, deadline) {
      BlockedBelow(path, p, k + 1, f, deadline);
      assert BlockedAt(path, p, k + 1, f, deadline);
    }
  }

  /** A file is left exactly if a call failed on one of the directories that lead to it, or on the file. */
  lemma FileLeftIff(es: seq<Entry>, path: Path, p: Path, f: Faults, deadline: int)
    ensures HasFile(Left(es, path, f, deadline), p) <==> HasFile(es, p) && SomeCallFailed(path, p, f, deadline)
  {
    FileIsLeft(es, path, p, f, deadline);
    ObstructedIff(path, p, f, deadline);
    hide Left, HasFile, Obstructed, SomeCallFailed;
  }

  /** Without failures nothing is left at all, not even a directory. */
  lemma {:induction false} NothingFailsNothingLeft(es: seq<Entry>, n: nat, path: Path, f: Faults, deadline: int)
    requires n <= |es| && forall q, call :: (q, call) in f ==> call.Deadline? && deadline == 0
    ensures LeftOfFirst(es, n, path, f, deadline) == [] && !DirFails(f, deadline, path)
    decreases es, n
  {
    if n > 0 {
      NothingFailsNothingLeft(es, n - 1, path, f, deadline);
      var e := es[n - 1];
      var q := path + [e.name];
      assert !EntryFails(f, q) && (q, Remove) !in f;
      if e.Dir? {
        NothingFailsNothingLeft(e.entries, |e.entries|, q, f, deadline);
      }
      assert LeftOf(e, path, f, deadline) == [];
    }
  }
}
