/**
 In which order the filesystems of a user are tried, said by positions in the configuration: first the
 defaults, then everything else as it is configured.
 */
module FilesystemOrder {
  import opened AccessControl

  /** One name comes before another in a list. */
  predicate Before(names: seq<string>, x: string, y: string) {
    exists i, j :: 0 <= i < j < |names| && names[i] == x && names[j] == y
  }

  /** The first name with a property, or nothing if no name has it. */
  predicate PicksFirst(names: seq<string>, s: set<string>, picked: seq<string>) {
    if picked == [] then forall n <- names :: n !in s
    else |picked| == 1 && picked[0] in names && picked[0] in s && forall n <- names :: n in s && n != picked[0] ==>
      Before(names, picked[0], n)
  }

  /** All names in the order of the list. */
  predicate InOrder(names: seq<string>, part: seq<string>) {
    forall i, j :: 0 <= i < j < |part| ==> Before(names, part[i], part[j])
  }

  lemma {:induction false} FirstOfPicks(names: seq<string>, i: nat, s: set<string>)
    requires i <= |names| && forall k :: 0 <= k < i ==> names[k] !in s
    ensures PicksFirst(names, s, FirstOf(names, i, s))
    decreases |names| - i
  {
    if i < |names| {
      if names[i] in s {
        forall n | n in names && n in s && n != names[i]
          ensures Before(names, names[i], n)
        {
          var j :| 0 <= j < |names| && names[j] == n;
          assert i < j;
        }
      } else {
        FirstOfPicks(names, i + 1, s);
      }
    }
  }

  lemma {:induction false} AmongInOrder(names: seq<string>, k: nat, s: set<string>)
    requires k <= |names|
    ensures InOrder(names, Among(names, k, s))
    ensures forall n <- Among(names, k, s) :: exists i :: 0 <= i < k && names[i] == n
  {
    if k > 0 {
      AmongInOrder(names, k - 1, s);
      var earlier, all := Among(names, k - 1, s), Among(names, k, s);
      forall i, j | 0 <= i < j < |all|
        ensures Before(names, all[i], all[j])
      {
        assert all[i] == earlier[i] && earlier[i] in earlier;
        var a :| 0 <= a < k - 1 && names[a] == all[i];
        if j == |earlier| {
          assert names[k - 1] == all[j];
        } else {
          assert all[j] == earlier[j];
        }
      }
    }
  }

  /** The pieces of the list: a default of the user, one of a group, the global one, and all others. */
  predicate Composed(c: Config, user: string, groups: seq<string>, intent: Intent, u: seq<string>, g: seq<string>,
                     d: seq<string>, rest: seq<string>)
  {
    var accessible := set n | n in c.filesystems && MayAccess(c, user, groups, n, intent);
    var ofUser := set n | n in accessible && user in c.filesystems[n].userdefault;
    var ofGroups := set n | n in accessible && n !in u
                            && exists x :: x in groups && x in c.filesystems[n].groupdefault;
    && PicksFirst(c.names, ofUser, u)
    && PicksFirst(c.names, ofGroups, g)
    && d == (if c.defaultWorkspace != "" && c.defaultWorkspace in accessible && c.defaultWorkspace !in u + g
             then [c.defaultWorkspace] else [])
    && InOrder(c.names, rest)
  }

  /** The list begins with the defaults, each the first that is accessible, and goes on as configured. */
  lemma ValidListOrder(c: Config, user: string, groups: seq<string>, intent: Intent)
    requires ValidConfig(c)
    ensures exists u, g, d, rest :: Composed(c, user, groups, intent, u, g, d, rest)
                                    && ValidList(c, user, groups, intent) == u + g + d + rest
  {
    var ok := Accessible(c, user, groups, intent);
    var users, shared := UserDefaults(c, user), GroupDefaults(c, groups);
    var u := FirstOf(c.names, 0, users * ok);
    var g := FirstOf(c.names, 0, shared * ok - Elements(u));
    var d := GlobalDefault(c, ok - Elements(u + g));
    var rest := Among(c.names, |c.names|, ok - Elements(u + g + d));
    FirstOfPicks(c.names, 0, users * ok);
    FirstOfPicks(c.names, 0, shared * ok - Elements(u));
    AmongInOrder(c.names, |c.names|, ok - Elements(u + g + d));
    hide MayAccess, PicksFirst, InOrder, FirstOf, Among;
    assert users * ok == set n | n in ok && user in c.filesystems[n].userdefault;
    assert shared * ok - Elements(u)
        == set n | n in ok && n !in u && exists x :: x in groups && x in c.filesystems[n].groupdefault;
    assert Composed(c, user, groups, intent, u, g, d, rest);
  }
}
