/**
 What access control lists mean, on their text: who is granted what by `bob`, `+bob:create,list` or
 `-bob:use`, without the parser and its entries. The decision about every configuration is compared with
 that.
 */
module AccessText {
  import opened Names
  import opened Wrappers
  import opened AccessControl

  /** The name of an intent in a list. */
  predicate Permits(name: string, intent: Intent) {
    match intent
    case LIST => name == "list"
    case USE => name == "use"
    case CREATE => name == "create"
    case EXTEND => name == "extend"
    case RELEASE => name == "release"
    case RESTORE => name == "restore"
  }

  predicate IsPermission(name: string) {
    name in {"list", "use", "create", "extend", "release", "restore"}
  }

  predicate SomePermits(names: seq<string>, intent: Intent) {
    exists i :: 0 <= i < |names| && Permits(names[i], intent)
  }

  predicate SomePermission(names: seq<string>) {
    exists i :: 0 <= i < |names| && IsPermission(names[i])
  }

  /** Words with commas between them. */
  function Joined(names: seq<string>): string {
    if names == [] then "" else if |names| == 1 then names[0] else names[0] + "," + Joined(names[1..])
  }

  /**
   The text of an entry about an id: a sign, the id, and after a colon the names of permissions. A sign at the
   beginning of the id itself needs one before it.
   */
  predicate Reads(entry: string, sign: string, id: string, names: seq<string>) {
    && sign in {"", "+", "-"} && id != "" && ':' !in id && (sign == "" ==> |id| == 1 || id[0] !in {'+', '-'})
    && (forall i :: 0 <= i < |names| ==> IsWord(names[i]))
    && (entry == sign + id + ":" + Joined(names) || (names == [] && entry == sign + id))
  }

  /** An entry that names permissions of which none exists says nothing. */
  predicate Says(sign: string, names: seq<string>) {
    names == [] || SomePermission(names)
  }

  /** Without names it is about all intents; a minus turns what is said around. */
  predicate Grants(sign: string, names: seq<string>, intent: Intent) {
    if names == [] then sign != "-"
    else if sign == "-" then !SomePermits(names, intent)
    else SomePermits(names, intent)
  }

  /** The list has an entry about the id. */
  ghost predicate IsAbout(entry: string, id: string) {
    exists sign, names :: Reads(entry, sign, id, names) && Says(sign, names)
  }

  /** Every entry about the id grants the intent. */
  ghost predicate GrantsAlways(entry: string, id: string, intent: Intent) {
    forall sign, names :: Reads(entry, sign, id, names) && Says(sign, names) ==> Grants(sign, names, intent)
  }

  // ----- names of permissions -----

  lemma NamesOfIntents(name: string)
    ensures IntentNamed(name).Some? <==> IsPermission(name)
    ensures forall intent :: IntentNamed(name) == Some(intent) <==> Permits(name, intent)
  {
  }

  lemma {:induction false} IntentsAreNamed(names: seq<string>, intent: Intent)
    ensures IntentsOf(names) == [] <==> !SomePermission(names)
    ensures intent in IntentsOf(names) <==> SomePermits(names, intent)
  {
    if names != [] {
      NamesOfIntents(names[0]);
      IntentsAreNamed(names[1..], intent);
      hide IntentNamed, Permits, IsPermission;
      assert forall i | 1 <= i < |names| :: names[i] == names[1..][i - 1];
    }
  }

  // ----- lists of names -----

  lemma {:induction false} JoinedIsWordList(names: seq<string>)
    requires names != [] && forall i :: 0 <= i < |names| ==> IsWord(names[i])
    ensures IsWordList(Joined(names)) && Fields(Joined(names), ',') == names
  {
    if |names| == 1 {
      OneWord(names[0]);
    } else {
      JoinedIsWordList(names[1..]);
      OneMoreWord(names[0], Joined(names[1..]));
    }
    hide IsWord, IsWordList, Fields;
  }

  lemma OneWord(word: string)
    requires IsWord(word)
    ensures IsWordList(word) && Fields(word, ',') == [word]
  {
    assert ',' !in word && FirstDelimiter(word, ',') == |word| && word[..|word|] == word;
    FieldsLaw(word, ',', "");
    hide Fields;
  }

  lemma OneMoreWord(word: string, rest: string)
    requires IsWord(word) && IsWordList(rest)
    ensures IsWordList(word + "," + rest) && Fields(word + "," + rest, ',') == [word] + Fields(rest, ',')
  {
    var s := word + "," + rest;
    assert ',' !in word;
    FieldsLaw(word, ',', rest);
    hide Fields;
    assert s[|word|] == ',' && s[..|word|] == word && s[|word| + 1..] == rest;
    assert forall j | 0 <= j < |word| :: s[j] == word[j];
    assert FirstDelimiter(s, ',') == |word|;
  }

  lemma {:induction false} WordListIsJoined(s: string)
    requires IsWordList(s)
    ensures var names := Fields(s, ',');
      && names != [] && s == Joined(names) && forall i :: 0 <= i < |names| ==> IsWord(names[i])
    decreases |s|
  {
    var i := FirstDelimiter(s, ',');
    assert s != "" by {
      assert IsWord(s[..i]);
    }
    hide IsWord;
    if i < |s| {
      WordListIsJoined(s[i + 1..]);
      assert s == s[..i] + "," + s[i + 1..];
      assert Fields(s, ',')[1..] == Fields(s[i + 1..], ',');
    } else {
      assert s[..i] == s;
    }
  }

  // ----- the parser reads the text -----

  lemma EntryIsRead(entry: string, sign: string, id: string, names: seq<string>)
    requires Reads(entry, sign, id, names)
    ensures Says(sign, names) ==> ParseEntry(entry) == Some(AclEntry(id, sign != "-", IntentsOf(names)))
    ensures !Says(sign, names) ==> ParseEntry(entry) == None
  {
    IntentsAreNamed(names, LIST);
    ReadPieces(entry, sign, id, names);
    hide IsWordList, IntentsOf, SomePermission, IsWord, Joined, Fields, Head, Permissions, IdOf, Reads;
  }

  /** The pieces that the parser takes from the text. */
  lemma ReadPieces(entry: string, sign: string, id: string, names: seq<string>)
    requires Reads(entry, sign, id, names)
    ensures WellFormed(entry) && IdOf(entry) == id && Fields(Permissions(entry), ',') == names
    ensures Signed(entry) && entry[0] == '-' <==> sign == "-"
  {
    var colon, permissions := entry != sign + id, Joined(names);
    if names != [] {
      JoinedIsWordList(names);
    }
    assert entry == sign + id + (if colon then ":" else "") + permissions;
    PiecesOf(entry, sign, id, colon, permissions);
    hide IsWordList, IsWord, FirstDelimiter;
    assert Head(entry) == sign + id && entry[0] == (sign + id)[0];
    assert names == [] ==> permissions == "";
  }

  function SignOf(entry: string): string {
    if Signed(entry) then [entry[0]] else ""
  }

  /** An accepted entry is its sign, its id, and what follows the colon. */
  lemma EntryIsPieces(entry: string)
    requires WellFormed(entry)
    ensures var sign, id := SignOf(entry), IdOf(entry);
      && sign in {"", "+", "-"} && id != "" && ':' !in id && (sign == "" ==> |id| == 1 || id[0] !in {'+', '-'})
      && (entry == sign + id + ":" + Permissions(entry) || (Permissions(entry) == "" && entry == sign + id))
  {
    hide IsWordList;
    HeadIsPieces(entry);
    HeadAndRest(entry);
    hide SignOf, IdOf, Permissions, FirstDelimiter;
  }

  lemma HeadIsPieces(entry: string)
    requires Head(entry) != ""
    ensures var sign, id := SignOf(entry), IdOf(entry);
      && Head(entry) == sign + id && sign in {"", "+", "-"} && id != "" && ':' !in id
      && (sign == "" ==> |id| == 1 || id[0] !in {'+', '-'})
  {
    var head := Head(entry);
    assert entry[0] == head[0] && ':' !in head;
    if Signed(entry) {
      assert forall c :: c in head[1..] ==> c in head;
    }
  }

  lemma HeadAndRest(entry: string)
    ensures entry == Head(entry) + ":" + Permissions(entry) || (Permissions(entry) == "" && entry == Head(entry))
  {
    var i := FirstDelimiter(entry, ':');
    if i < |entry| {
      assert entry == entry[..i] + [entry[i]] + entry[i + 1..];
    } else {
      assert entry[..i] == entry;
    }
  }

  lemma ReadEntryHasText(entry: string)
    requires ParseEntry(entry).Some?
    ensures exists sign, names :: Reads(entry, sign, ParseEntry(entry).value.id, names) && Says(sign, names)
  {
    var permissions := Permissions(entry);
    EntryIsPieces(entry);
    hide Head, Permissions, Signed, IdOf, FirstDelimiter, IntentsOf, SomePermission, IsWord;
    var names := if permissions == "" then [] else Fields(permissions, ',');
    if permissions != "" {
      WordListIsJoined(permissions);
    } else {
      FieldsOfNothing();
    }
    IntentsAreNamed(names, LIST);
    hide IsWordList, Fields, Joined;
    NothingJoined();
    assert Reads(entry, SignOf(entry), IdOf(entry), names);
  }

  lemma FieldsOfNothing()
    ensures Fields("", ',') == []
  {
  }

  lemma NothingJoined()
    ensures Joined([]) == ""
  {
  }

  lemma IsAboutIff(entry: string, id: string)
    ensures IsAbout(entry, id) <==> ParseEntry(entry).Some? && ParseEntry(entry).value.id == id
  {
    hide ParseEntry, Reads, Says;
    if IsAbout(entry, id) {
      var sign, names :| Reads(entry, sign, id, names) && Says(sign, names);
      EntryIsRead(entry, sign, id, names);
    }
    if ParseEntry(entry).Some? && ParseEntry(entry).value.id == id {
      ReadEntryHasText(entry);
    }
  }

  lemma GrantsIff(entry: string, id: string, intent: Intent)
    requires IsAbout(entry, id)
    ensures ParseEntry(entry).Some? && (Allows(ParseEntry(entry).value, intent) <==> GrantsAlways(entry, id, intent))
  {
    IsAboutIff(entry, id);
    hide ParseEntry, Reads;
    forall sign, names | Reads(entry, sign, id, names) && Says(sign, names)
      ensures Allows(ParseEntry(entry).value, intent) <==> Grants(sign, names, intent)
    {
      EntryIsRead(entry, sign, id, names);
      IntentsAreNamed(names, intent);
    }
  }

  // ----- the decision -----

  /** The list says something about one of the ids. */
  ghost predicate Mentioned(acl: seq<string>, ids: seq<string>) {
    exists e, id :: e in acl && id in ids && IsAbout(e, id)
  }

  /** All that the list says about any of the ids grants the intent. */
  ghost predicate AllGrant(acl: seq<string>, ids: seq<string>, intent: Intent) {
    forall e, id :: e in acl && id in ids && IsAbout(e, id) ==> GrantsAlways(e, id, intent)
  }

  lemma MentionedIff(acl: seq<string>, ids: seq<string>)
    ensures Mentions(ParsedSet(Elements(acl)), Elements(ids)) <==> Mentioned(acl, ids)
  {
    hide ParseEntry, IsAbout;
    forall e, id
      ensures IsAbout(e, id) <==> ParseEntry(e).Some? && ParseEntry(e).value.id == id
    {
      IsAboutIff(e, id);
    }
    if Mentions(ParsedSet(Elements(acl)), Elements(ids)) {
      var parsed :| parsed in ParsedSet(Elements(acl)) && parsed.id in Elements(ids);
      var e :| e in acl && ParseEntry(e) == Some(parsed);
      assert e in acl && parsed.id in ids && IsAbout(e, parsed.id);
    }
    if e, id :| e in acl && id in ids && IsAbout(e, id) {
      assert ParseEntry(e).value in ParsedSet(Elements(acl));
    }
  }

  lemma AllGrantIff(acl: seq<string>, ids: seq<string>, intent: Intent)
    ensures AllAllow(ParsedSet(Elements(acl)), Elements(ids), intent) <==> AllGrant(acl, ids, intent)
  {
    hide ParseEntry, IsAbout, Allows, GrantsAlways;
    forall e, id | IsAbout(e, id)
      ensures ParseEntry(e).Some? && ParseEntry(e).value.id == id
      ensures Allows(ParseEntry(e).value, intent) <==> GrantsAlways(e, id, intent)
    {
      IsAboutIff(e, id);
      GrantsIff(e, id, intent);
    }
    if AllGrant(acl, ids, intent) {
      forall parsed | parsed in ParsedSet(Elements(acl)) && parsed.id in Elements(ids)
        ensures Allows(parsed, intent)
      {
        var e :| e in acl && ParseEntry(e) == Some(parsed);
        IsAboutIff(e, parsed.id);
      }
    } else {
      var e, id :| e in acl && id in ids && IsAbout(e, id) && !GrantsAlways(e, id, intent);
      assert ParseEntry(e).value in ParsedSet(Elements(acl));
    }
  }

  /**
   The decision on the text of the lists: a configured filesystem is accessible to administrators, to everybody
   if there are no lists, and else if what the lists say grants it: all that is said about the user, or if
   nothing is, all that is said about the groups, if anything is.
   */
  lemma AccessByText(c: Config, user: string, groups: seq<string>, filesystem: string, intent: Intent)
    ensures MayAccess(c, user, groups, filesystem, intent)
       <==> && filesystem in c.filesystems
            && var Filesystem(userAcl, groupAcl, _, _) := c.filesystems[filesystem];
               || user in c.admins
               || (userAcl == [] && groupAcl == [])
               || (if Mentioned(userAcl, [user]) then AllGrant(userAcl, [user], intent)
                   else Mentioned(groupAcl, groups) && AllGrant(groupAcl, groups, intent))
  {
    if filesystem in c.filesystems {
      var userAcl, groupAcl := c.filesystems[filesystem].userAcl, c.filesystems[filesystem].groupAcl;
      assert Elements([user]) == {user};
      MentionedIff(userAcl, [user]);
      MentionedIff(groupAcl, groups);
      AllGrantIff(userAcl, [user], intent);
      AllGrantIff(groupAcl, groups, intent);
      ElementsOfNothing(userAcl);
      ElementsOfNothing(groupAcl);
      assert user in c.admins <==> user in Elements(c.admins);
    }
    hide Mentions, AllAllow, ParsedSet, Mentioned, AllGrant;
  }

  // ----- the documented forms -----

  /** The user is no administrator, and only this list says who has access. */
  predicate OnlyUserList(c: Config, user: string, filesystem: string, acl: seq<string>) {
    && filesystem in c.filesystems && user !in c.admins && acl != []
    && c.filesystems[filesystem].userAcl == acl && c.filesystems[filesystem].groupAcl == []
  }

  /** A list of one entry about the user gives what the entry grants. */
  lemma OneEntryDecides(c: Config, user: string, groups: seq<string>, filesystem: string, intent: Intent,
                        entry: string, sign: string, names: seq<string>)
    requires OnlyUserList(c, user, filesystem, [entry]) && Reads(entry, sign, user, names)
    ensures MayAccess(c, user, groups, filesystem, intent) <==> Says(sign, names) && Grants(sign, names, intent)
  {
    hide MayAccess, ParseEntry, Reads, IsAbout, GrantsAlways, SomePermits, IntentsOf;
    AccessByText(c, user, groups, filesystem, intent);
    EntryIsRead(entry, sign, user, names);
    IsAboutIff(entry, user);
    IntentsAreNamed(names, intent);
    if IsAbout(entry, user) {
      GrantsIff(entry, user, intent);
    }
    assert entry in [entry] && user in [user];
  }

  /** With several entries about the user, all have to grant it. */
  lemma EntriesCombine(c: Config, user: string, groups: seq<string>, filesystem: string, intent: Intent,
                       acl: seq<string>)
    requires OnlyUserList(c, user, filesystem, acl)
    ensures MayAccess(c, user, groups, filesystem, intent)
       <==> && (exists e :: e in acl && IsAbout(e, user))
            && forall e :: e in acl && IsAbout(e, user) ==> GrantsAlways(e, user, intent)
  {
    AccessByText(c, user, groups, filesystem, intent);
    assert user in [user];
    hide MayAccess, IsAbout, GrantsAlways;
  }

  /** The forms in the documentation, for an id without colon and sign and the name of a permission. */
  lemma DocumentedForms(c: Config, u: string, groups: seq<string>, fs: string, intent: Intent, acl: seq<string>,
                        p: string, named: Intent)
    requires u != "" && ':' !in u && u[0] !in {'+', '-'} && Permits(p, named) && OnlyUserList(c, u, fs, acl)
    ensures acl == [u] || acl == ["+" + u] ==> MayAccess(c, u, groups, fs, intent)
    ensures acl == ["-" + u] ==> !MayAccess(c, u, groups, fs, intent)
    ensures acl == ["+" + u + ":" + p] ==> (MayAccess(c, u, groups, fs, intent) <==> intent == named)
    ensures acl == ["-" + u + ":" + p] ==> (MayAccess(c, u, groups, fs, intent) <==> intent != named)
  {
    PermissionIsWord(p, named, intent);
    hide MayAccess, Permits, IsWord;
    if acl == [u] {
      assert u == "" + u;
      OneEntryDecides(c, u, groups, fs, intent, u, "", []);
    }
    if acl == ["+" + u] {
      OneEntryDecides(c, u, groups, fs, intent, "+" + u, "+", []);
    }
    if acl == ["-" + u] {
      OneEntryDecides(c, u, groups, fs, intent, "-" + u, "-", []);
    }
    if acl == ["+" + u + ":" + p] {
      OneEntryDecides(c, u, groups, fs, intent, "+" + u + ":" + p, "+", [p]);
    }
    if acl == ["-" + u + ":" + p] {
      OneEntryDecides(c, u, groups, fs, intent, "-" + u + ":" + p, "-", [p]);
    }
  }

  lemma PermissionIsWord(p: string, named: Intent, intent: Intent)
    requires Permits(p, named)
    ensures IsWord(p) && SomePermission([p]) && (SomePermits([p], intent) <==> intent == named) && Joined([p]) == p
  {
    assert [p][0] == p;
    assert Permits(p, intent) <==> intent == named;
  }
}
