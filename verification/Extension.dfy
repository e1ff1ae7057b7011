/**
 Creating and extending a workspace: the clamp on durations, the 32-bit arithmetic, and the extensions
 that an entry has left. Over any run of extensions by users these bound how long a workspace lives.
 */
module Extension {
  import opened Wrappers

  const DAY: int := 24 * 3600
  const TWO_31: int := 0x8000_0000
  /** The most days whose seconds fit 32 bits. */
  const MAX_DAYS: int := 24855

  datatype Limits = Limits(maxduration: int, durationdefault: int, maxextensions: int)

  /** The settings of an entry that an extension may change. */
  datatype Settings = Settings(expiration: int, extensions: int, mail: string, reminder: int, comment: string)

  // ----- 32-bit arithmetic -----

  /** Reduction to 32 bits, as the hardware does it where the language leaves the overflow undefined. */
  function Wrap32(x: int): (r: int)
    ensures -TWO_31 <= r < TWO_31
    ensures -TWO_31 <= x < TWO_31 ==> r == x
  {
    (x + TWO_31) % (2 * TWO_31) - TWO_31
  }

  function SecondsOf(days: int): int {
    Wrap32(Wrap32(days * 24) * 3600)
  }

  /** The product is exact, without an overflow on the way, exactly up to 24855 days either way. */
  lemma SecondsExactIff(days: int)
    ensures (-TWO_31 <= days * 24 < TWO_31 && -TWO_31 <= days * 24 * 3600 < TWO_31) <==> -24855 <= days <= 24855
    ensures -MAX_DAYS <= days <= MAX_DAYS ==> SecondsOf(days) == days * 86400
  {
  }

  /** An overflow never gives more time than the days asked for. */
  lemma OverflowNeverLengthens(days: int)
    requires days >= -MAX_DAYS
    ensures SecondsOf(days) <= days * DAY
  {
    SecondsExactIff(days);
  }

  // ----- clamps -----

  function CreateLimit(l: Limits): int {
    if l.maxduration > 0 then l.maxduration else l.durationdefault
  }

  function ExtendLimit(l: Limits): int {
    if l.maxduration == 0 then l.durationdefault else l.maxduration
  }

  /** The two limits differ only for a negative maximum, which only the creation takes as none. */
  lemma LimitsAgreeIff(l: Limits)
    ensures CreateLimit(l) == ExtendLimit(l) <==> l.maxduration >= 0 || l.maxduration == l.durationdefault
  {
  }

  function Clamp(duration: int, limit: int, root: bool): int {
    if !root && (duration > limit || duration < 0) then limit else duration
  }

  method ValidateDuration(l: Limits, requested: int, root: bool) returns (duration: int)
    ensures root ==> duration == requested
    ensures !root ==> duration <= CreateLimit(l) && (0 <= requested <= CreateLimit(l) ==> duration == requested)
    ensures !root && !(0 <= requested <= CreateLimit(l)) ==> duration == CreateLimit(l)
  {
    duration := requested;
    var configduration: int;
    if l.maxduration > 0 {
      configduration := l.maxduration;
    } else {
      configduration := l.durationdefault;
    }
    if !root && (duration > configduration || duration < 0) {
      duration := configduration;
    }
  }

  /** The settings of a new entry. */
  method Create(l: Limits, requested: int, now: int, root: bool, mail: string, reminder: int, comment: string)
    returns (s: Settings)
    ensures s == Created(l, requested, now, root, mail, reminder, comment)
  {
    var duration := ValidateDuration(l, requested, root);
    s := Settings(now + SecondsOf(duration), l.maxextensions, mail, reminder, comment);
  }

  function Created(l: Limits, requested: int, now: int, root: bool, mail: string, reminder: int,
                   comment: string): Settings {
    Settings(now + SecondsOf(Clamp(requested, CreateLimit(l), root)), l.maxextensions, mail, reminder, comment)
  }

  // ----- useExtension -----

  const UNCHANGED: int := -1

  /** What a call is asked to change; an expiration of -1, no text and no reminder leave things as they are. */
  datatype Request = Request(expiration: int, mail: string, reminder: int, comment: string)

  predicate Lengthens(s: Settings, expiration: int) {
    expiration != UNCHANGED && expiration > s.expiration
  }

  /** The settings after useExtension, or none if it refuses: a user without extensions left. */
  function Used(s: Settings, r: Request, root: bool): Option<Settings> {
    var extensions := if !root && Lengthens(s, r.expiration) then s.extensions - 1 else s.extensions;
    if extensions < 0 && !root then None else
    Some(Settings(if r.expiration != UNCHANGED then r.expiration else s.expiration, extensions,
                  if r.mail != "" then r.mail else s.mail,
                  if r.reminder != 0 then r.reminder else s.reminder,
                  if r.comment != "" then r.comment else s.comment))
  }

  /** An entry object and the file behind it. */
  class DBEntry {
    var expiration: int
    var extensions: int
    var mailaddress: string
    var reminder: int
    var comment: string
    var file: Settings

    function View(): Settings
      reads this
    {
      Settings(expiration, extensions, mailaddress, reminder, comment)
    }

    /** readEntry. */
    constructor (file: Settings)
      ensures View() == file == this.file
    {
      expiration, extensions, mailaddress, reminder, comment :=
        file.expiration, file.extensions, file.mail, file.reminder, file.comment;
      this.file := file;
    }

    method WriteEntry(fails: bool)
      modifies this`file
      ensures file == if fails then old(file) else View()
    {
      if !fails {
        file := Settings(expiration, extensions, mailaddress, reminder, comment);
      }
    }

    /** A refusal comes before the write, so that the file keeps everything. */
    method UseExtension(r: Request, root: bool, writeFails: bool) returns (ok: bool)
      modifies this
      ensures ok <==> Used(old(View()), r, root).Some?
      ensures ok ==> View() == Used(old(View()), r, root).value && file == if writeFails then old(file) else View()
      ensures !ok ==> file == old(file)
    {
      if r.mail != "" {
        mailaddress := r.mail;
      }
      if r.reminder != 0 {
        reminder := r.reminder;
      }
      if r.comment != "" {
        comment := r.comment;
      }
      if !root && r.expiration != UNCHANGED && r.expiration > expiration {
        extensions := extensions - 1;
      }
      if extensions < 0 && !root {
        return false;
      }
      if r.expiration != UNCHANGED {
        expiration := r.expiration;
      }
      WriteEntry(writeFails);
      ok := true;
    }

    /** The extension branch of ws_allocate; a delegate keeps the settings of the owner. */
    method Extend(l: Limits, requested: int, now: int, root: bool, delegate: bool, mail: string, reminder: int,
                  comment: string, writeFails: bool) returns (ok: bool)
      requires file == View()
      modifies this
      ensures var ask := Ask(requested, now, delegate, mail, reminder, comment, writeFails);
        file == AfterExtend(l, old(file), ask, root)
    {
      var newMail := "";
      if !delegate && mail != "" {
        newMail := mail;
      } else if mailaddress != "" {
        newMail := mailaddress;
      }
      var exp := UNCHANGED;
      var duration := requested;
      if duration != 0 {
        var configduration := l.maxduration;
        if configduration == 0 {
          configduration := l.durationdefault;
        }
        if !root && (duration > configduration || duration < 0) {
          duration := configduration;
        }
        exp := now + SecondsOf(duration);
      }
      ok := UseExtension(Request(exp, newMail, if delegate then 0 else reminder, if delegate then "" else comment),
                         root, writeFails);
    }
  }

  /** One call of ws_allocate for an existing workspace, with the time it is made. */
  datatype Ask = Ask(requested: int, now: int, delegate: bool, mail: string, reminder: int, comment: string,
                     writeFails: bool)

  function NewExpiration(l: Limits, a: Ask, root: bool): int {
    if a.requested == 0 then UNCHANGED else a.now + SecondsOf(Clamp(a.requested, ExtendLimit(l), root))
  }

  /** The file after one call. */
  function AfterExtend(l: Limits, s: Settings, a: Ask, root: bool): Settings {
    var r := Request(NewExpiration(l, a, root), if a.delegate || a.mail == "" then s.mail else a.mail,
                     if a.delegate then 0 else a.reminder, if a.delegate then "" else a.comment);
    if Used(s, r, root).None? || a.writeFails then s else Used(s, r, root).value
  }

  lemma DelegateKeepsOwnersSettings(l: Limits, s: Settings, a: Ask, root: bool)
    requires a.delegate
    ensures var t := AfterExtend(l, s, a, root);
      t.mail == s.mail && t.reminder == s.reminder && t.comment == s.comment
  {
  }

  /** The days that are granted: what was asked for, or for users the limit if that is more or negative. */
  predicate Granted(l: Limits, requested: int, root: bool, days: int) {
    var limit := if l.maxduration == 0 then l.durationdefault else l.maxduration;
    if root || 0 <= requested <= limit then days == requested else days == limit
  }

  /** The call would set another expiration, and a later one. */
  predicate MovesOn(s: Settings, a: Ask, days: int) {
    a.requested != 0 && a.now + SecondsOf(days) > s.expiration && a.now + SecondsOf(days) != -1
  }

  /**
   What one call leaves in the file. A user who asks for a later expiration needs an extension and uses it; a
   shorter one is stored as well, and costs nothing. Mail address, reminder and comment are stored if they are
   given, by the owner. A refused call and a failed write leave everything as it was.
   */
  lemma CallOutcome(l: Limits, s: Settings, a: Ask, root: bool, days: int)
    requires Granted(l, a.requested, root, days)
    ensures var t, needed := AfterExtend(l, s, a, root), if !root && MovesOn(s, a, days) then 1 else 0;
      && (a.writeFails || (!root && s.extensions < needed) ==> t == s)
      && (!a.writeFails && (root || s.extensions >= needed) ==>
            && t.extensions == s.extensions - needed
            && t.expiration == (if a.requested != 0 && a.now + SecondsOf(days) != -1 then a.now + SecondsOf(days)
                                else s.expiration)
            && t.mail == (if !a.delegate && a.mail != "" then a.mail else s.mail)
            && t.reminder == (if !a.delegate && a.reminder != 0 then a.reminder else s.reminder)
            && t.comment == (if !a.delegate && a.comment != "" then a.comment else s.comment))
  {
    hide SecondsOf;
    assert Clamp(a.requested, ExtendLimit(l), root) == days || a.requested == 0;
  }

  /** What a creation writes. */
  lemma CreateOutcome(l: Limits, requested: int, now: int, root: bool, mail: string, reminder: int, comment: string,
                      days: int)
    requires var limit := if l.maxduration > 0 then l.maxduration else l.durationdefault;
      if root || 0 <= requested <= limit then days == requested else days == limit
    ensures var s := Created(l, requested, now, root, mail, reminder, comment);
      && s.extensions == l.maxextensions && s.mail == mail && s.reminder == reminder && s.comment == comment
      && (-MAX_DAYS <= days <= MAX_DAYS ==> s.expiration == now + days * 86400)
  {
    SecondsExactIff(days);
    hide SecondsOf;
  }

  // ----- runs of extensions by users -----

  /** Total seconds by which calls came after the expiration they found. */
  function Lateness(l: Limits, s: Settings, asks: seq<Ask>): (late: nat)
    decreases |asks|
  {
    if asks == [] then 0 else
    var t, now := After(l, s, asks[..|asks| - 1]), asks[|asks| - 1].now;
    Lateness(l, s, asks[..|asks| - 1]) + if now > t.expiration then now - t.expiration else 0
  }

  /** The file after a run of calls, none of them by root. */
  function After(l: Limits, s: Settings, asks: seq<Ask>): Settings
    decreases |asks|
  {
    if asks == [] then s else AfterExtend(l, After(l, s, asks[..|asks| - 1]), asks[|asks| - 1], false)
  }

  /** How many calls of the run moved the expiration into the future. */
  function Lengthenings(l: Limits, s: Settings, asks: seq<Ask>): nat
    decreases |asks|
  {
    if asks == [] then 0 else
    var earlier := asks[..|asks| - 1];
    Lengthenings(l, s, earlier) + if After(l, s, asks).expiration > After(l, s, earlier).expiration then 1 else 0
  }

  function Longest(l: Limits): int {
    if CreateLimit(l) > ExtendLimit(l) then CreateLimit(l) else ExtendLimit(l)
  }

  /** The amount that a step never increases, except by being late. */
  function Potential(s: Settings, days: int): int {
    s.expiration + s.extensions * (days * DAY)
  }

  lemma StepPotential(l: Limits, s: Settings, a: Ask, days: int)
    requires ExtendLimit(l) >= -MAX_DAYS && ExtendLimit(l) <= days && 0 <= days
    ensures var t := AfterExtend(l, s, a, false);
      && Potential(t, days) <= Potential(s, days) + (if a.now > s.expiration then a.now - s.expiration else 0)
      && t.extensions == s.extensions - (if t.expiration > s.expiration then 1 else 0)
      && (t.expiration > s.expiration ==> t.extensions >= 0)
  {
    var t, days' := AfterExtend(l, s, a, false), Clamp(a.requested, ExtendLimit(l), false);
    OverflowNeverLengthens(days');
    assert days' * DAY <= days * DAY;
    if t.extensions != s.extensions {
      assert t.extensions * (days * DAY) == s.extensions * (days * DAY) - days * DAY;
    }
  }

  lemma {:induction false} RunPotential(l: Limits, s: Settings, asks: seq<Ask>, days: int)
    requires ExtendLimit(l) >= -MAX_DAYS && ExtendLimit(l) <= days && 0 <= days
    ensures var t := After(l, s, asks);
      && Potential(t, days) <= Potential(s, days) + Lateness(l, s, asks)
      && t.extensions == s.extensions - Lengthenings(l, s, asks)
      && (Lengthenings(l, s, asks) > 0 ==> t.extensions >= 0)
    decreases |asks|
  {
    if asks != [] {
      var earlier, a := asks[..|asks| - 1], asks[|asks| - 1];
      hide Potential, AfterExtend;
      RunPotential(l, s, earlier, days);
      StepPotential(l, After(l, s, earlier), a, days);
    }
  }

  /**
   From its creation on, a workspace is lengthened at most maxextensions times, and expires no later
   than (1 + maxextensions) longest durations after its creation, plus the time by which extensions
   came after the expiration. With every extension made before the expiration, that time is zero.
   */
  lemma LifetimeBound(l: Limits, requested: int, created: int, mail: string, reminder: int, comment: string,
                      asks: seq<Ask>)
    requires l.maxextensions >= 0 && Longest(l) >= 0
    requires CreateLimit(l) >= -MAX_DAYS && ExtendLimit(l) >= -MAX_DAYS
    ensures var s := Created(l, requested, created, false, mail, reminder, comment);
      && Lengthenings(l, s, asks) <= l.maxextensions
      && After(l, s, asks).extensions == l.maxextensions - Lengthenings(l, s, asks)
      && After(l, s, asks).expiration
         <= created + (1 + l.maxextensions) * (Longest(l) * DAY) + Lateness(l, s, asks)
  {
    var s, days := Created(l, requested, created, false, mail, reminder, comment), Longest(l);
    CreatedPotential(l, requested, created, mail, reminder, comment);
    RunPotential(l, s, asks, days);
    hide After, Lateness, Lengthenings, Created, Potential;
    PotentialBoundsExpiration(After(l, s, asks), days);
  }

  lemma PotentialBoundsExpiration(s: Settings, days: int)
    requires s.extensions >= 0 && days >= 0
    ensures s.expiration <= Potential(s, days)
  {
    assert s.extensions * (days * DAY) >= 0;
  }

  lemma CreatedPotential(l: Limits, requested: int, created: int, mail: string, reminder: int, comment: string)
    requires l.maxextensions >= 0 && Longest(l) >= 0 && CreateLimit(l) >= -MAX_DAYS
    ensures var s := Created(l, requested, created, false, mail, reminder, comment);
      && s.extensions == l.maxextensions
      && Potential(s, Longest(l)) <= created + (1 + l.maxextensions) * (Longest(l) * DAY)
  {
    var days := Clamp(requested, CreateLimit(l), false);
    OverflowNeverLengthens(days);
    assert days * DAY <= Longest(l) * DAY;
    hide SecondsOf;
    assert (1 + l.maxextensions) * (Longest(l) * DAY) == Longest(l) * DAY + l.maxextensions * (Longest(l) * DAY);
  }

  // ----- the bound is reached -----

  /** The run that asks for the maximum whenever the workspace is about to expire. */
  function Greedy(l: Limits, s: Settings, n: nat): seq<Ask> {
    if n == 0 then [] else
    Greedy(l, s, n - 1) + [Ask(ExtendLimit(l), After(l, s, Greedy(l, s, n - 1)).expiration, false, "", 0, "", false)]
  }

  lemma GreedyStep(l: Limits, s: Settings)
    requires 0 < l.maxduration <= MAX_DAYS && s.extensions > 0 && s.expiration + l.maxduration * DAY != UNCHANGED
    ensures var t := AfterExtend(l, s, Ask(ExtendLimit(l), s.expiration, false, "", 0, "", false), false);
      t.expiration == s.expiration + l.maxduration * DAY && t.extensions == s.extensions - 1
  {
    SecondsExactIff(l.maxduration);
    hide SecondsOf;
  }

  lemma GreedyReachesTheBound(l: Limits, created: nat, n: nat)
    requires 0 < l.maxduration <= MAX_DAYS && n <= l.maxextensions
    ensures var s := Created(l, l.maxduration, created, false, "", 0, "");
      && After(l, s, Greedy(l, s, n)).expiration == created + (1 + n) * (l.maxduration * DAY)
      && After(l, s, Greedy(l, s, n)).extensions == l.maxextensions - n
      && Lateness(l, s, Greedy(l, s, n)) == 0
  {
    GreedyStart(l, created);
    GreedyRun(l, Created(l, l.maxduration, created, false, "", 0, ""), n, l.maxduration * DAY);
    hide After, Lateness, Greedy, Created;
    assert (1 + n) * (l.maxduration * DAY) == l.maxduration * DAY + n * (l.maxduration * DAY);
  }

  function Times(n: nat, x: nat): nat {
    n * x
  }

  lemma TimesStep(n: nat, x: nat)
    ensures Times(n + 1, x) == Times(n, x) + x && Times(0, x) == 0
  {
  }

  lemma {:induction false} GreedyRun(l: Limits, s: Settings, n: nat, step: nat)
    requires 0 < l.maxduration <= MAX_DAYS && n <= s.extensions && 0 <= s.expiration && step == l.maxduration * DAY
    ensures var t := After(l, s, Greedy(l, s, n));
      && t.expiration == s.expiration + Times(n, step) && t.extensions == s.extensions - n
      && Lateness(l, s, Greedy(l, s, n)) == 0
  {
    hide Times, AfterExtend, After, Lateness, Greedy;
    if n == 0 {
      GreedyNothing(l, s);
      TimesStep(0, step);
    } else {
      GreedyRun(l, s, n - 1, step);
      TimesStep(n - 1, step);
      GreedyExtends(l, s, n - 1);
      GreedyStep(l, After(l, s, Greedy(l, s, n - 1)));
    }
  }

  lemma GreedyNothing(l: Limits, s: Settings)
    ensures After(l, s, Greedy(l, s, 0)) == s && Lateness(l, s, Greedy(l, s, 0)) == 0
  {
  }

  /** One more call, exactly at the expiration. */
  lemma GreedyExtends(l: Limits, s: Settings, n: nat)
    ensures var t := After(l, s, Greedy(l, s, n));
      && After(l, s, Greedy(l, s, n + 1))
         == AfterExtend(l, t, Ask(ExtendLimit(l), t.expiration, false, "", 0, "", false), false)
      && Lateness(l, s, Greedy(l, s, n + 1)) == Lateness(l, s, Greedy(l, s, n))
  {
    hide AfterExtend, ExtendLimit;
    var t := After(l, s, Greedy(l, s, n));
    RunExtends(l, s, Greedy(l, s, n), Ask(ExtendLimit(l), t.expiration, false, "", 0, "", false));
    hide After, Lateness;
  }

  lemma GreedyStart(l: Limits, created: nat)
    requires 0 < l.maxduration <= MAX_DAYS
    ensures var s := Created(l, l.maxduration, created, false, "", 0, "");
      s.expiration == created + l.maxduration * DAY && s.extensions == l.maxextensions
  {
    SecondsExactIff(l.maxduration);
  }

  lemma RunExtends(l: Limits, s: Settings, asks: seq<Ask>, a: Ask)
    ensures After(l, s, asks + [a]) == AfterExtend(l, After(l, s, asks), a, false)
    ensures a.now <= After(l, s, asks).expiration ==> Lateness(l, s, asks + [a]) == Lateness(l, s, asks)
  {
    hide AfterExtend;
    assert (asks + [a])[..|asks|] == asks;
  }
}
