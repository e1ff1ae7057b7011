/**
 Listing of group workspaces: entries of owners who share no group with the caller are skipped without
 reading them. The check intersects sorted lists and caches its results; here the cache is shown to
 agree with the plain computation, and the shortcut to be invisible, exactly when it is.
 The groups of a user are a fixed table.
 */
module GroupListing {
  import opened Sequences
  import opened Names

  // ----- the order of strings -----

  predicate Less(a: string, b: string) {
    b != "" && (a == "" || a[0] < b[0] || (a[0] == b[0] && Less(a[1..], b[1..])))
  }

  lemma {:induction false} LessIsTotal(a: string, b: string)
    ensures (if Less(a, b) then 1 else 0) + (if Less(b, a) then 1 else 0) + (if a == b then 1 else 0) == 1
  {
    if a != "" && b != "" && a[0] == b[0] {
      LessIsTotal(a[1..], b[1..]);
      assert a == [a[0]] + a[1..] && b == [b[0]] + b[1..];
    }
  }

  lemma {:induction false} LessIsTransitive(a: string, b: string, c: string)
    requires Less(a, b) && Less(b, c)
    ensures Less(a, c)
  {
    if a != "" && a[0] == b[0] == c[0] {
      LessIsTransitive(a[1..], b[1..], c[1..]);
    }
  }

  predicate Sorted(s: seq<string>) {
    forall i, j :: 0 <= i < j < |s| ==> !Less(s[j], s[i])
  }

  // ----- std::sort -----

  function Inserted(x: string, s: seq<string>): seq<string> {
    if s == [] then [x] else if !Less(s[0], x) then [x] + s else [s[0]] + Inserted(x, s[1..])
  }

  function SortedOf(s: seq<string>): seq<string> {
    if s == [] then [] else Inserted(s[0], SortedOf(s[1..]))
  }

  /** Sorted means that the first is not above any other, and the rest is sorted. */
  lemma SortedFromFirst(first: string, rest: seq<string>)
    requires Sorted(rest) && forall j :: 0 <= j < |rest| ==> !Less(rest[j], first)
    ensures Sorted([first] + rest)
  {
    hide Less;
  }

  lemma {:induction false} InsertedIsSorted(x: string, s: seq<string>)
    requires Sorted(s)
    ensures Sorted(Inserted(x, s)) && multiset(Inserted(x, s)) == multiset(s) + multiset{x}
  {
    hide Less;
    if s != [] {
      var first, rest := s[0], s[1..];
      assert s == [first] + rest;
      if !Less(first, x) {
        forall j | 0 <= j < |s|
          ensures !Less(s[j], x)
        {
          NotLessIsTransitive(s[j], first, x);
        }
        SortedFromFirst(x, s);
      } else {
        InsertedIsSorted(x, rest);
        InsertedAfter(first, x, rest);
        SortedFromFirst(first, Inserted(x, rest));
      }
    }
  }

  lemma InsertedAfter(first: string, x: string, rest: seq<string>)
    requires Sorted([first] + rest) && Less(first, x) && multiset(Inserted(x, rest)) == multiset(rest) + multiset{x}
    ensures forall j :: 0 <= j < |Inserted(x, rest)| ==> !Less(Inserted(x, rest)[j], first)
  {
    hide Less, Inserted;
    LessIsTotal(first, x);
    var t := Inserted(x, rest);
    forall j | 0 <= j < |t|
      ensures !Less(t[j], first)
    {
      assert t[j] in multiset(t);
      if t[j] != x {
        assert t[j] in rest;
        var i :| 0 <= i < |rest| && rest[i] == t[j];
        assert ([first] + rest)[i + 1] == t[j] && ([first] + rest)[0] == first;
      }
    }
  }

  lemma NotLessIsTransitive(c: string, b: string, a: string)
    requires !Less(b, a) && (c == b || !Less(c, b))
    ensures !Less(c, a)
  {
    LessIsTotal(a, b);
    LessIsTotal(b, c);
    LessIsTotal(a, c);
    if Less(c, a) {
      if Less(a, b) {
        LessIsTransitive(c, a, b);
      }
    }
  }

  /** Sorting gives a sorted permutation. */
  lemma {:induction false} SortedOfIsSorted(s: seq<string>)
    ensures Sorted(SortedOf(s)) && multiset(SortedOf(s)) == multiset(s)
  {
    if s != [] {
      SortedOfIsSorted(s[1..]);
      InsertedIsSorted(s[0], SortedOf(s[1..]));
      assert s == [s[0]] + s[1..];
    }
  }

  // ----- std::set_intersection -----

  method SetIntersection(a: seq<string>, b: seq<string>) returns (common: seq<string>)
    requires Sorted(a) && Sorted(b)
    ensures forall x :: x in common <==> x in a && x in b
  {
    hide Less;
    common := [];
    var i, j := 0, 0;
    while i < |a| && j < |b|
      invariant i <= |a| && j <= |b|
      invariant forall x :: x in common ==> x in a && x in b
      invariant forall x :: x in a && x in b ==> x in common || (x in a[i..] && x in b[j..])
      decreases |a| - i + |b| - j
    {
      LessIsTotal(a[i], b[j]);
      assert a[i..] == [a[i]] + a[i + 1..] && b[j..] == [b[j]] + b[j + 1..];
      if Less(a[i], b[j]) {
        NotAmong(a[i], b, j);
        i := i + 1;
      } else if Less(b[j], a[i]) {
        NotAmong(b[j], a, i);
        j := j + 1;
      } else {
        common := common + [a[i]];
        i, j := i + 1, j + 1;
      }
    }
  }

  lemma NotAmong(x: string, s: seq<string>, k: nat)
    requires Sorted(s) && k < |s| && Less(x, s[k])
    ensures x !in s[k..]
  {
    if x in s[k..] {
      var i :| k <= i < |s| && s[i] == x;
      LessIsTotal(s[i], s[k]);
    }
  }

  // ----- HasGroupIntersection -----

  /** The groups of all users; unknown users have none. */
  type Table = map<string, seq<string>>

  function GroupsOf(users: Table, user: string): seq<string> {
    if user in users then users[user] else []
  }

  /** What the check means: a user without any group is taken to share one. */
  predicate HasCommon(users: Table, baseuser: string, user: string) {
    GroupsOf(users, user) == [] || Share(GroupsOf(users, baseuser), GroupsOf(users, user))
  }

  class HasGroupIntersection {
    var baselist: seq<string>
    var resultcache: map<string, bool>
    ghost const users: Table
    ghost const baseuser: string

    /** The list is sorted, and the cache holds nothing but fresh results. */
    ghost predicate Valid()
      reads this
    {
      && Sorted(baselist) && multiset(baselist) == multiset(GroupsOf(users, baseuser))
      && forall user :: user in resultcache ==> (resultcache[user] <==> HasCommon(users, baseuser, user))
    }

    constructor (users: Table, baseuser: string)
      ensures Valid() && this.users == users && this.baseuser == baseuser
    {
      SortedOfIsSorted(GroupsOf(users, baseuser));
      baselist := SortedOf(GroupsOf(users, baseuser));
      resultcache := map[];
      this.users, this.baseuser := users, baseuser;
    }

    method HasCommonGroups(table: Table, user: string) returns (r: bool)
      requires Valid() && table == users
      modifies this`resultcache
      ensures Valid()
      ensures r <==> HasCommon(users, baseuser, user)
    {
      if user in resultcache {
        return resultcache[user];
      }
      var comparelist := GroupsOf(table, user);
      if |comparelist| == 0 {
        resultcache := resultcache[user := true];
        return true;
      }
      SortedOfIsSorted(comparelist);
      var sorted := SortedOf(comparelist);
      var intersection := SetIntersection(baselist, sorted);
      r := |intersection| > 0;
      SharesIff(GroupsOf(users, baseuser), comparelist, baselist, sorted, intersection);
      resultcache := resultcache[user := r];
    }
  }

  lemma SharesIff(a: seq<string>, b: seq<string>, a': seq<string>, b': seq<string>, common: seq<string>)
    requires multiset(a) == multiset(a') && multiset(b) == multiset(b')
    requires forall x :: x in common <==> x in a' && x in b'
    ensures Share(a, b) <==> |common| > 0
  {
    assert forall x :: x in a <==> x in multiset(a);
    assert forall x :: x in a' <==> x in multiset(a');
    assert forall x :: x in b <==> x in multiset(b);
    assert forall x :: x in b' <==> x in multiset(b');
    if |common| > 0 {
      assert common[0] in common;
    }
  }

  // ----- matchPattern for group workspaces -----

  /** The group of each entry file; none or an unreadable file is the empty string. */
  type Entries = map<string, string>

  function GroupOf(entries: Entries, file: string): string {
    if file in entries then entries[file] else ""
  }

  /** What reading every entry lists. */
  function PlainListing(files: seq<string>, entries: Entries, groups: seq<string>): seq<string> {
    if files == [] then [] else
    PlainListing(files[..|files| - 1], entries, groups)
    + if GroupOf(entries, files[|files| - 1]) in groups then [files[|files| - 1]] else []
  }

  /** An entry is skipped unread: its name has two fields, and the first is a user without a common group. */
  predicate Skipped(users: Table, caller: string, file: string) {
    var parts := Fields(file, '-');
    |parts| == 2 && !HasCommon(users, caller, parts[0])
  }

  /** Behind the first dash there is one more field exactly if there is something, and no more dash. */
  lemma TwoFieldsIff(tail: string)
    ensures |Fields(tail, '-')| == 1 <==> tail != "" && '-' !in tail[..|tail| - 1]
  {
    var j := FirstDelimiter(tail, '-');
    if j < |tail| {
      assert Fields(tail, '-') == [tail[..j]] + Fields(tail[j + 1..], '-');
      assert j < |tail| - 1 ==> tail[..|tail| - 1][j] == '-';
      assert j == |tail| - 1 ==> tail[j + 1..] == "";
    }
  }

  /** A name of two fields: something, a dash, and a rest with no dash but at its very end. */
  predicate TwoParts(file: string, user: string, rest: string) {
    file == user + "-" + rest && '-' !in user && rest != "" && '-' !in rest[..|rest| - 1]
  }

  lemma TwoPartsMeansFields(file: string, user: string, rest: string)
    requires TwoParts(file, user, rest)
    ensures |Fields(file, '-')| == 2 && Fields(file, '-')[0] == user
  {
    FieldsLaw(user, '-', rest);
    TwoFieldsIff(rest);
    hide Fields;
  }

  lemma FieldsMeanTwoParts(file: string)
    requires |Fields(file, '-')| == 2
    ensures exists rest :: TwoParts(file, Fields(file, '-')[0], rest)
  {
    var i := FirstDelimiter(file, '-');
    var user, rest := file[..i], file[i + 1..];
    assert file == user + "-" + rest;
    FieldsLaw(user, '-', rest);
    TwoFieldsIff(rest);
    hide Fields;
    assert Fields(file, '-')[0] == user;
    assert TwoParts(file, user, rest);
  }

  /** An entry is skipped exactly if its name begins with a user who has groups, but none in common. */
  lemma SkippedIff(users: Table, caller: string, file: string)
    ensures Skipped(users, caller, file)
       <==> exists user, rest ::
              && TwoParts(file, user, rest) && user in users && users[user] != []
              && !(exists g :: g in users[user] && caller in users && g in users[caller])
  {
    if |Fields(file, '-')| == 2 {
      FieldsMeanTwoParts(file);
    }
    forall user, rest | TwoParts(file, user, rest)
      ensures |Fields(file, '-')| == 2 && Fields(file, '-')[0] == user
    {
      TwoPartsMeansFields(file, user, rest);
    }
    hide Fields, TwoParts;
  }

  function ShortListing(users: Table, caller: string, files: seq<string>, entries: Entries,
                        groups: seq<string>): seq<string> {
    if files == [] then [] else
    var earlier, file := files[..|files| - 1], files[|files| - 1];
    ShortListing(users, caller, earlier, entries, groups)
    + if !Skipped(users, caller, file) && GroupOf(entries, file) in groups then [file] else []
  }

  function Occurrences(s: seq<string>, x: string): nat {
    if s == [] then 0 else Occurrences(s[..|s| - 1], x) + if s[|s| - 1] == x then 1 else 0
  }

  /** A file is listed, as often as it occurs, exactly if its entry is not skipped and is in one of the groups. */
  lemma {:induction false} ListedIff(users: Table, caller: string, files: seq<string>, entries: Entries,
                                     groups: seq<string>, f: string)
    ensures Occurrences(ShortListing(users, caller, files, entries, groups), f)
         == if !Skipped(users, caller, f) && (if f in entries then entries[f] else "") in groups
            then Occurrences(files, f) else 0
  {
    hide Skipped;
    if files != [] {
      var short := ShortListing(users, caller, files[..|files| - 1], entries, groups);
      ListedIff(users, caller, files[..|files| - 1], entries, groups, f);
      assert (short + [files[|files| - 1]])[..|short|] == short && short + [] == short;
    }
  }

  /** The loop of matchPattern over the files of a directory, for the given caller. */
  method ListGroup(users: Table, caller: string, files: seq<string>, entries: Entries, groups: seq<string>)
    returns (list: seq<string>)
    ensures list == ShortListing(users, caller, files, entries, groups)
  {
    hide HasCommon, Fields;
    list := [];
    var groupintersection := new HasGroupIntersection(users, caller);
    for i := 0 to |files|
      invariant fresh(groupintersection) && groupintersection.Valid()
      invariant groupintersection.users == users && groupintersection.baseuser == caller
      invariant list == ShortListing(users, caller, files[..i], entries, groups)
    {
      assert files[..i + 1][..i] == files[..i];
      var parts := SplitString(files[i], '-');
      if |parts| == 2 {
        var common := groupintersection.HasCommonGroups(users, parts[0]);
        if !common {
          continue;
        }
      }
      if GroupOf(entries, files[i]) in groups {
        list := list + [files[i]];
      }
    }
    assert files[..|files|] == files;
  }

  /** The shortcut is invisible exactly if it skips no entry of one of the caller's groups. */
  lemma {:induction false} ListingsAgreeIff(users: Table, caller: string, files: seq<string>, entries: Entries,
                                            groups: seq<string>)
    ensures |ShortListing(users, caller, files, entries, groups)| <= |PlainListing(files, entries, groups)|
    ensures ShortListing(users, caller, files, entries, groups) == PlainListing(files, entries, groups)
      <==> forall f :: f in files && Skipped(users, caller, f) ==> GroupOf(entries, f) !in groups
  {
    hide Skipped, GroupOf;
    if files != [] {
      var earlier, file := files[..|files| - 1], files[|files| - 1];
      ListingsAgreeIff(users, caller, earlier, entries, groups);
      assert files == earlier + [file];
      var short, plain := ShortListing(users, caller, earlier, entries, groups), PlainListing(earlier, entries, groups);
      if ShortListing(users, caller, files, entries, groups) == PlainListing(files, entries, groups) {
        assert short == ShortListing(users, caller, files, entries, groups)[..|short|];
        assert plain == PlainListing(files, entries, groups)[..|plain|];
      }
    }
  }

  /**
   So it is invisible if the group of every entry is one of its owner's groups, where the name tells
   the owner, and the groups of the calling process are among the caller's listed groups.
   */
  lemma ListingsAgree(users: Table, caller: string, files: seq<string>, entries: Entries, groups: seq<string>)
    requires forall g :: g in groups ==> g in GroupsOf(users, caller)
    requires forall f :: f in files && |Fields(f, '-')| == 2 && GroupOf(entries, f) in groups ==>
      GroupOf(entries, f) in GroupsOf(users, Fields(f, '-')[0])
    ensures ShortListing(users, caller, files, entries, groups) == PlainListing(files, entries, groups)
  {
    hide Fields, GroupOf;
    ListingsAgreeIff(users, caller, files, entries, groups);
  }
}
