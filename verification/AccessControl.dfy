/**
 Access control lists of filesystems: how an entry is read, who has access, and in which order the
 filesystems of a user are tried. Lists are read in order, but their order does not matter.
 */
module AccessControl {
  import opened Sequences
  import opened Wrappers
  import opened Names

  datatype Intent = LIST | USE | CREATE | EXTEND | RELEASE | RESTORE

  function IntentNamed(name: string): Option<Intent> {
    if name == "list" then Some(LIST)
    else if name == "use" then Some(USE)
    else if name == "create" then Some(CREATE)
    else if name == "extend" then Some(EXTEND)
    else if name == "release" then Some(RELEASE)
    else if name == "restore" then Some(RESTORE)
    else None
  }

  /** A parsed entry; without intents it stands for all of them. */
  datatype AclEntry = AclEntry(id: string, grant: bool, intents: seq<Intent>)

  // ----- the syntax of an entry -----

  predicate IsWord(s: string) {
    s != "" && forall i :: 0 <= i < |s| ==> IsDigit(s[i]) || 'a' <= s[i] <= 'z' || 'A' <= s[i] <= 'Z' || s[i] == '_'
  }

  /** Words, separated by single commas. */
  predicate IsWordList(s: string)
    decreases |s|
  {
    var i := FirstDelimiter(s, ',');
    IsWord(s[..i]) && (i < |s| ==> IsWordList(s[i + 1..]))
  }

  /** [+|-]id[:[permission{,permission}]], as the pieces of an entry. */
  predicate Spells(entry: string, modifier: string, id: string, colon: bool, permissions: string) {
    && modifier in {"", "+", "-"}
    && id != "" && ':' !in id
    && (permissions == "" || (colon && IsWordList(permissions)))
    && entry == modifier + id + (if colon then ":" else "") + permissions
  }

  /** What stands before the first colon, and what after it. */
  function Head(entry: string): string {
    entry[..FirstDelimiter(entry, ':')]
  }

  function Permissions(entry: string): string {
    var i := FirstDelimiter(entry, ':');
    if i < |entry| then entry[i + 1..] else ""
  }

  /** A sign is a modifier if an id follows it. */
  predicate Signed(entry: string) {
    |Head(entry)| >= 2 && entry[0] in {'+', '-'}
  }

  predicate WellFormed(entry: string) {
    Head(entry) != "" && (Permissions(entry) == "" || IsWordList(Permissions(entry)))
  }

  function IdOf(entry: string): string {
    if Signed(entry) then Head(entry)[1..] else Head(entry)
  }

  /**
   An entry is accepted exactly if it can be spelled in pieces, and they are unique up to a sign in
   front, which is taken as a modifier whenever that leaves an id.
   */
  lemma WellFormedIff(entry: string)
    ensures WellFormed(entry) <==> exists m, id, colon, p :: Spells(entry, m, id, colon, p)
    ensures forall m, id, colon, p :: Spells(entry, m, id, colon, p) ==>
      && p == Permissions(entry) && m + id == Head(entry)
      && (id == IdOf(entry) || (m == "" && id == [entry[0]] + IdOf(entry)))
  {
    forall m, id, colon, p | Spells(entry, m, id, colon, p)
      ensures WellFormed(entry) && p == Permissions(entry) && m + id == Head(entry)
      ensures id == IdOf(entry) || (m == "" && id == [entry[0]] + IdOf(entry))
    {
      PiecesOf(entry, m, id, colon, p);
    }
    if WellFormed(entry) {
      var i := FirstDelimiter(entry, ':');
      assert Spells(entry, "", Head(entry), i < |entry|, Permissions(entry));
    }
  }

  lemma PiecesOf(entry: string, m: string, id: string, colon: bool, p: string)
    requires Spells(entry, m, id, colon, p)
    ensures WellFormed(entry) && p == Permissions(entry) && m + id == Head(entry)
    ensures id == IdOf(entry) || (m == "" && id == [entry[0]] + IdOf(entry))
  {
    hide IsWordList;
    var head, rest := m + id, (if colon then ":" else "") + p;
    assert ':' !in head;
    FirstColon(head, rest);
    assert entry == head + rest && entry[..|head|] == head;
    assert p == Permissions(entry) by {
      assert colon ==> entry[|head| + 1..] == p;
    }
    if m == "" {
      assert id == [entry[0]] + id[1..];
    } else {
      assert head[0] == m[0] && head[1..] == id;
    }
  }

  lemma FirstColon(head: string, rest: string)
    requires ':' !in head && (rest == "" || rest[0] == ':')
    ensures FirstDelimiter(head + rest, ':') == |head|
  {
    var s := head + rest;
    assert forall j :: 0 <= j < |head| ==> s[j] == head[j] && head[j] in head;
    assert rest != "" ==> s[|head|] == ':';
  }

  // ----- parseACL -----

  function IntentsOf(tokens: seq<string>): seq<Intent> {
    if tokens == [] then [] else
    (if IntentNamed(tokens[0]).Some? then [IntentNamed(tokens[0]).value] else []) + IntentsOf(tokens[1..])
  }

  /** Entries that are malformed, or name permissions of which none exists, grant and deny nothing. */
  function ParseEntry(entry: string): Option<AclEntry> {
    var tokens := Fields(Permissions(entry), ',');
    if !WellFormed(entry) || (tokens != [] && IntentsOf(tokens) == []) then None
    else Some(AclEntry(IdOf(entry), !(Signed(entry) && entry[0] == '-'), IntentsOf(tokens)))
  }

  function ParsedFirst(acl: seq<string>, n: nat): seq<AclEntry>
    requires n <= |acl|
  {
    if n == 0 then [] else
    ParsedFirst(acl, n - 1) + if ParseEntry(acl[n - 1]).Some? then [ParseEntry(acl[n - 1]).value] else []
  }

  method ParseIntents(tokens: seq<string>) returns (intents: seq<Intent>)
    ensures intents == IntentsOf(tokens)
  {
    intents := [];
    for i := 0 to |tokens|
      invariant intents + IntentsOf(tokens[i..]) == IntentsOf(tokens)
    {
      var intent := IntentNamed(tokens[i]);
      assert tokens[i..][1..] == tokens[i + 1..];
      if intent.Some? {
        intents := intents + [intent.value];
      }
    }
  }

  method ParseACL(acl: seq<string>) returns (entries: seq<AclEntry>)
    ensures entries == ParsedFirst(acl, |acl|)
  {
    entries := [];
    for i := 0 to |acl|
      invariant entries == ParsedFirst(acl, i)
    {
      var entry := acl[i];
      if !WellFormed(entry) {
        continue;
      }
      var grant := true;
      if Signed(entry) {
        grant := entry[0] == '+';
      }
      var tokens := SplitString(Permissions(entry), ',');
      var intents := ParseIntents(tokens);
      if tokens != [] && intents == [] {
        continue;
      }
      entries := entries + [AclEntry(IdOf(entry), grant, intents)];
    }
  }

  /** What the entries of a list say, as a set. */
  function ParsedSet(acl: set<string>): set<AclEntry> {
    set s | s in acl && ParseEntry(s).Some? :: ParseEntry(s).value
  }

  lemma {:induction false} ParsedFirstIsSet(acl: seq<string>, n: nat)
    requires n <= |acl|
    ensures (set e | e in ParsedFirst(acl, n)) == ParsedSet(Elements(acl[..n]))
  {
    hide ParseEntry;
    if n > 0 {
      ParsedFirstIsSet(acl, n - 1);
      assert Elements(acl[..n]) == Elements(acl[..n - 1]) + {acl[n - 1]};
      ParsedSetGrows(Elements(acl[..n - 1]), acl[n - 1]);
    }
  }

  lemma ParsedSetGrows(acl: set<string>, s: string)
    ensures ParsedSet(acl + {s}) == ParsedSet(acl) + if ParseEntry(s).Some? then {ParseEntry(s).value} else {}
  {
    hide ParseEntry;
  }

  // ----- hasAccess -----

  datatype Filesystem = Filesystem(userAcl: seq<string>, groupAcl: seq<string>, userdefault: seq<string>,
                                   groupdefault: seq<string>)

  /** The configured filesystems in the order of their names. */
  datatype Config = Config(names: seq<string>, filesystems: map<string, Filesystem>, admins: seq<string>,
                           defaultWorkspace: string)

  ghost predicate ValidConfig(c: Config) {
    && NoDuplicates(c.names)
    && (forall n :: n in c.names <==> n in c.filesystems)
  }

  predicate Allows(e: AclEntry, intent: Intent) {
    if e.intents == [] then e.grant else e.grant == (intent in e.intents)
  }

  /** Some entry is about one of these ids. */
  predicate Mentions(entries: set<AclEntry>, ids: set<string>) {
    exists e :: e in entries && e.id in ids
  }

  /** Deny wins: all entries about these ids allow it. */
  predicate AllAllow(entries: set<AclEntry>, ids: set<string>, intent: Intent) {
    forall e :: e in entries && e.id in ids ==> Allows(e, intent)
  }

  /**
   The rule: administrators have access to every filesystem there is. Without lists everybody has. With
   a list access must be granted: by the entries about the user if there are any, else by those about
   the user's groups. It is stated over sets, as no order or repetition matters.
   */
  predicate Access(userAcl: set<string>, groupAcl: set<string>, admins: set<string>, user: string, groups: set<string>,
                   intent: Intent)
  {
    || user in admins
    || (userAcl == {} && groupAcl == {})
    || (var own, shared := ParsedSet(userAcl), ParsedSet(groupAcl);
        if Mentions(own, {user}) then AllAllow(own, {user}, intent)
        else Mentions(shared, groups) && AllAllow(shared, groups, intent))
  }

  function Elements(s: seq<string>): set<string> {
    set x | x in s
  }

  predicate MayAccess(c: Config, user: string, groups: seq<string>, filesystem: string, intent: Intent) {
    && filesystem in c.filesystems
    && Access(Elements(c.filesystems[filesystem].userAcl), Elements(c.filesystems[filesystem].groupAcl),
              Elements(c.admins), user, Elements(groups), intent)
  }

  /** The loop over the entries of one list: whether any is about these ids, and whether all of those allow. */
  method Evaluate(acl: seq<string>, ids: seq<string>, intent: Intent) returns (anyMatch: bool, allAllow: bool)
    ensures anyMatch <==> Mentions(ParsedSet(Elements(acl)), Elements(ids))
    ensures allAllow <==> AllAllow(ParsedSet(Elements(acl)), Elements(ids), intent)
  {
    hide ParseEntry, ParsedFirst, ParsedSet, Allows;
    anyMatch, allAllow := false, true;
    var entries := ParseACL(acl);
    for i := 0 to |entries|
      invariant anyMatch <==> exists j :: 0 <= j < i && entries[j].id in ids
      invariant allAllow <==> forall j :: 0 <= j < i && entries[j].id in ids ==> Allows(entries[j], intent)
    {
      if entries[i].id in ids {
        anyMatch := true;
        if !Allows(entries[i], intent) {
          allAllow := false;
        }
      }
    }
    ParsedFirstIsSet(acl, |acl|);
    assert acl[..|acl|] == acl;
    assert forall e :: e in entries <==> e in ParsedSet(Elements(acl));
  }

  method HasAccess(c: Config, user: string, groups: seq<string>, filesystem: string, intent: Intent) returns (ok: bool)
    ensures ok <==> MayAccess(c, user, groups, filesystem, intent)
  {
    ok := true;
    if filesystem !in c.filesystems {
      return false;
    }
    var fs := c.filesystems[filesystem];
    if |fs.userAcl| > 0 || |fs.groupAcl| > 0 {
      ok := false;
      if |fs.groupAcl| > 0 {
        var anyMatch, allAllow := Evaluate(fs.groupAcl, groups, intent);
        if anyMatch {
          ok := allAllow;
        }
      }
      if |fs.userAcl| > 0 {
        var anyMatch, allAllow := Evaluate(fs.userAcl, [user], intent);
        assert Elements([user]) == {user};
        if anyMatch {
          ok := allAllow;
        }
      }
    }
    if |c.admins| > 0 && user in c.admins {
      ok := true;
    }
    ElementsOfNothing(fs.userAcl);
    ElementsOfNothing(fs.groupAcl);
    hide Mentions, AllAllow, ParsedSet;
  }

  lemma ElementsOfNothing(s: seq<string>)
    ensures Elements(s) == {} <==> |s| == 0
  {
    if |s| > 0 {
      assert s[0] in Elements(s);
    }
  }

  /** Two lists with the same members, in any order and number. */
  predicate SameMembers(a: seq<string>, b: seq<string>) {
    (forall x :: x in a ==> x in b) && (forall x :: x in b ==> x in a)
  }

  /** Reordering or repeating entries, groups or administrators changes no decision. */
  lemma OrderDoesNotMatter(c: Config, d: Config, user: string, groups: seq<string>, groups': seq<string>, fs: string,
                           intent: Intent)
    requires fs in c.filesystems && fs in d.filesystems
    requires SameMembers(c.filesystems[fs].userAcl, d.filesystems[fs].userAcl)
    requires SameMembers(c.filesystems[fs].groupAcl, d.filesystems[fs].groupAcl)
    requires SameMembers(c.admins, d.admins) && SameMembers(groups, groups')
    ensures MayAccess(c, user, groups, fs, intent) <==> MayAccess(d, user, groups', fs, intent)
  {
    hide Access;
    assert Elements(c.filesystems[fs].userAcl) == Elements(d.filesystems[fs].userAcl);
    assert Elements(c.filesystems[fs].groupAcl) == Elements(d.filesystems[fs].groupAcl);
    assert Elements(c.admins) == Elements(d.admins) && Elements(groups) == Elements(groups');
  }

  // ----- validFilesystems -----

  /** The first of the names from i on that is in a set, if any. */
  function FirstOf(names: seq<string>, i: nat, s: set<string>): seq<string>
    decreases |names| - i
  {
    if i >= |names| then [] else if names[i] in s then [names[i]] else FirstOf(names, i + 1, s)
  }

  /** Those of the first n names that are in a set, in order. */
  function Among(names: seq<string>, n: nat, s: set<string>): seq<string>
    requires n <= |names|
  {
    if n == 0 then [] else Among(names, n - 1, s) + if names[n - 1] in s then [names[n - 1]] else []
  }

  function Accessible(c: Config, user: string, groups: seq<string>, intent: Intent): set<string> {
    set n | n in c.filesystems && MayAccess(c, user, groups, n, intent)
  }

  /** The filesystems that have one of these ids in their list of default users. */
  function UserDefaults(c: Config, user: string): set<string> {
    set n | n in c.filesystems && user in c.filesystems[n].userdefault
  }

  function GroupDefaults(c: Config, groups: seq<string>): set<string> {
    set n | n in c.filesystems && Share(groups, c.filesystems[n].groupdefault)
  }

  /**
   What validFilesystems promises: the first default of the user, the first default of a group that is
   not in the list yet, the global default, and then all others by name; each only if accessible.
   */
  function ValidList(c: Config, user: string, groups: seq<string>, intent: Intent): seq<string> {
    var ok := Accessible(c, user, groups, intent);
    var u := FirstOf(c.names, 0, UserDefaults(c, user) * ok);
    var ug := u + FirstOf(c.names, 0, GroupDefaults(c, groups) * ok - Elements(u));
    var ugd := ug + GlobalDefault(c, ok - Elements(ug));
    ugd + Among(c.names, |c.names|, ok - Elements(ugd))
  }

  function GlobalDefault(c: Config, s: set<string>): seq<string> {
    if c.defaultWorkspace != "" && c.defaultWorkspace in s then [c.defaultWorkspace] else []
  }

  lemma {:induction false} FirstOfIsOne(names: seq<string>, i: nat, s: set<string>)
    ensures |FirstOf(names, i, s)| <= 1 && forall n :: n in FirstOf(names, i, s) ==> n in names && n in s
    decreases |names| - i
  {
    if i < |names| {
      FirstOfIsOne(names, i + 1, s);
    }
  }

  lemma {:induction false} AmongIsOnce(names: seq<string>, k: nat, s: set<string>)
    requires NoDuplicates(names) && k <= |names|
    ensures NoDuplicates(Among(names, k, s)) && forall n :: n in Among(names, k, s) <==> n in names[..k] && n in s
  {
    if k > 0 {
      AmongIsOnce(names, k - 1, s);
      assert names[..k] == names[..k - 1] + [names[k - 1]];
    }
  }

  /** Appending some of what is missing. */
  lemma AppendKeeps(ok: set<string>, a: seq<string>, b: seq<string>)
    requires NoDuplicates(a) && NoDuplicates(b) && Elements(a) <= ok && Elements(b) <= ok - Elements(a)
    ensures NoDuplicates(a + b) && Elements(a + b) == Elements(a) + Elements(b) && Elements(a + b) <= ok
  {
    forall i, j | 0 <= i < j < |a + b|
      ensures (a + b)[i] != (a + b)[j]
    {
      if i < |a| <= j {
        assert (a + b)[i] in Elements(a) && (a + b)[j] in Elements(b);
      }
    }
  }

  /** Every accessible filesystem is listed exactly once, and no other. */
  lemma ValidListIsExact(c: Config, user: string, groups: seq<string>, intent: Intent)
    requires ValidConfig(c)
    ensures NoDuplicates(ValidList(c, user, groups, intent))
    ensures Elements(ValidList(c, user, groups, intent)) == Accessible(c, user, groups, intent)
  {
    var ok, users, shared := Accessible(c, user, groups, intent), UserDefaults(c, user), GroupDefaults(c, groups);
    AccessibleAreNamed(c, user, groups, intent);
    hide Accessible, UserDefaults, GroupDefaults, NoDuplicates, FirstOf, Among;
    FirstOfIsOne(c.names, 0, users * ok);
    var u := FirstOf(c.names, 0, users * ok);
    AtMostOne(u);
    FirstOfIsOne(c.names, 0, shared * ok - Elements(u));
    var g := FirstOf(c.names, 0, shared * ok - Elements(u));
    AtMostOne(g);
    AppendKeeps(ok, u, g);
    var d := GlobalDefault(c, ok - Elements(u + g));
    AtMostOne(d);
    AppendKeeps(ok, u + g, d);
    AmongIsOnce(c.names, |c.names|, ok - Elements(u + g + d));
    AppendKeeps(ok, u + g + d, Among(c.names, |c.names|, ok - Elements(u + g + d)));
    assert c.names[..|c.names|] == c.names;
  }

  lemma AtMostOne(s: seq<string>)
    requires |s| <= 1
    ensures NoDuplicates(s)
  {
  }

  lemma AccessibleAreNamed(c: Config, user: string, groups: seq<string>, intent: Intent)
    requires ValidConfig(c)
    ensures forall n :: n in Accessible(c, user, groups, intent) ==> n in c.names
  {
    hide MayAccess;
  }

  method Shares(a: seq<string>, b: seq<string>) returns (r: bool)
    ensures r <==> Share(a, b)
  {
    for i := 0 to |a|
      invariant forall j :: 0 <= j < i ==> a[j] !in b
    {
      if a[i] in b {
        return true;
      }
    }
    r := false;
  }

  /** The loop over user defaults: up to the first one that is accessible. */
  method FirstUserDefault(c: Config, user: string, groups: seq<string>, intent: Intent) returns (validfs: seq<string>)
    requires ValidConfig(c)
    ensures validfs == FirstOf(c.names, 0, UserDefaults(c, user) * Accessible(c, user, groups, intent))
  {
    hide MayAccess;
    validfs := [];
    ghost var s := UserDefaults(c, user) * Accessible(c, user, groups, intent);
    for i := 0 to |c.names|
      invariant validfs == [] && FirstOf(c.names, 0, s) == FirstOf(c.names, i, s)
    {
      var fs := c.names[i];
      assert fs in c.names;
      if user in c.filesystems[fs].userdefault {
        var access := HasAccess(c, user, groups, fs, intent);
        if access && fs !in validfs {
          validfs := validfs + [fs];
          break;
        }
      }
    }
  }

  /** The loop over group defaults: up to the first one that is accessible and not listed. */
  method AppendGroupDefault(c: Config, user: string, groups: seq<string>, intent: Intent, listed: seq<string>)
    returns (validfs: seq<string>)
    requires ValidConfig(c)
    ensures var candidates := GroupDefaults(c, groups) * Accessible(c, user, groups, intent) - Elements(listed);
      validfs == listed + FirstOf(c.names, 0, candidates)
  {
    hide MayAccess, Share;
    validfs := listed;
    ghost var s := GroupDefaults(c, groups) * Accessible(c, user, groups, intent) - Elements(listed);
    for i := 0 to |c.names|
      invariant validfs == listed && FirstOf(c.names, 0, s) == FirstOf(c.names, i, s)
    {
      var fs := c.names[i];
      assert fs in c.names;
      var share := Shares(groups, c.filesystems[fs].groupdefault);
      if share {
        var access := HasAccess(c, user, groups, fs, intent);
        if access && fs !in validfs {
          validfs := validfs + [fs];
          break;
        }
      }
    }
  }

  method ValidFilesystems(c: Config, user: string, groups: seq<string>, intent: Intent) returns (validfs: seq<string>)
    requires ValidConfig(c)
    ensures validfs == ValidList(c, user, groups, intent)
  {
    hide MayAccess, UserDefaults, GroupDefaults, FirstOf, Among;
    validfs := FirstUserDefault(c, user, groups, intent);
    validfs := AppendGroupDefault(c, user, groups, intent, validfs);
    ghost var missing := Accessible(c, user, groups, intent) - Elements(validfs);
    ghost var listed := validfs;
    if c.defaultWorkspace != "" {
      var access := HasAccess(c, user, groups, c.defaultWorkspace, intent);
      MayAccessOnlyConfigured(c, user, groups, c.defaultWorkspace, intent);
      if access && c.defaultWorkspace !in validfs {
        validfs := validfs + [c.defaultWorkspace];
      }
    }
    assert validfs == listed + GlobalDefault(c, missing);
    validfs := AppendOthers(c, user, groups, intent, validfs);
  }

  lemma MayAccessOnlyConfigured(c: Config, user: string, groups: seq<string>, fs: string, intent: Intent)
    ensures MayAccess(c, user, groups, fs, intent) ==> fs in c.filesystems
  {
  }

  /** The last loop: everything accessible that is not in the list yet. */
  method AppendOthers(c: Config, user: string, groups: seq<string>, intent: Intent, listed: seq<string>)
    returns (validfs: seq<string>)
    requires ValidConfig(c)
    ensures validfs == listed + Among(c.names, |c.names|, Accessible(c, user, groups, intent) - Elements(listed))
  {
    hide MayAccess, Among, Accessible, NoDuplicates;
    validfs := listed;
    ghost var others := Accessible(c, user, groups, intent) - Elements(listed);
    NoneAmong(c.names, others);
    for i := 0 to |c.names|
      invariant validfs == listed + Among(c.names, i, others)
    {
      var fs := c.names[i];
      var access := HasAccess(c, user, groups, fs, intent);
      IsMissing(c, user, groups, intent, listed, i);
      if access && fs !in validfs {
        validfs := validfs + [fs];
      }
    }
  }

  lemma NoneAmong(names: seq<string>, s: set<string>)
    ensures Among(names, 0, s) == []
  {
  }

  /** A name is missing from the list built so far exactly if it is appended. */
  lemma IsMissing(c: Config, user: string, groups: seq<string>, intent: Intent, listed: seq<string>, i: nat)
    requires ValidConfig(c) && i < |c.names|
    ensures var others := Accessible(c, user, groups, intent) - Elements(listed);
      var fs, validfs := c.names[i], listed + Among(c.names, i, others);
      Among(c.names, i + 1, others)
      == Among(c.names, i, others) + if MayAccess(c, user, groups, fs, intent) && fs !in validfs then [fs] else []
  {
    hide MayAccess;
    var others := Accessible(c, user, groups, intent) - Elements(listed);
    var fs := c.names[i];
    assert fs in c.names && fs !in c.names[..i];
    AmongIsOnce(c.names, i, others);
  }
}
