/** Single-use invites at one coordinator: atomic redemption with restore. */
module Invites {
  import opened Options

  type Secret = nat
  /** One join attempt being served. */
  type Redeemer = nat

  /** The short public name of an invite. */
  type Id = string

  datatype Entry = Entry(id: Id, expires: nat, revoked: bool)

  /** An expiry of zero means never. */
  predicate Expired(expires: nat, now: nat) {
    0 < expires <= now
  }

  predicate Redeemable(invites: map<Secret, Entry>, secret: Secret, now: nat) {
    secret in invites && !invites[secret].revoked && !Expired(invites[secret].expires, now)
  }

  function AfterConsume(invites: map<Secret, Entry>, secret: Secret, now: nat): map<Secret, Entry> {
    if Redeemable(invites, secret, now) then invites - {secret} else invites
  }

  /** An entry is restored unless it expired during admission or its slot was refilled. */
  predicate Restorable(invites: map<Secret, Entry>, secret: Secret, entry: Entry, now: nat) {
    !Expired(entry.expires, now) && secret !in invites
  }

  function AfterRestore(invites: map<Secret, Entry>, secret: Secret, entry: Entry, now: nat): map<Secret, Entry> {
    if Restorable(invites, secret, entry, now) then invites[secret := entry] else invites
  }

  /** The stored invites that an id or the beginning of one names. */
  function Named(invites: map<Secret, Entry>, id: Id): set<Secret> {
    set x | x in invites && id <= invites[x].id
  }

  /** Revoking marks the one stored invite named; none or several are refused. */
  function AfterRevoke(invites: map<Secret, Entry>, id: Id): map<Secret, Entry> {
    map x | x in invites ::
      if Named(invites, id) == {x} then invites[x].(revoked := true) else invites[x]
  }

  datatype Revocation = Revoked | NoMatch | Ambiguous

  /** The invites of one coordinator, changed only inside its write lock. */
  class InviteBook {
    var invites: map<Secret, Entry>
    var generation: nat

    constructor ()
      ensures invites == map[] && generation == 0
    {
      invites := map[];
      generation := 0;
    }

    /** Check, remove and return in one step; the loser of a race gets nothing. */
    method ConsumeInvite(secret: Secret, now: nat) returns (taken: Option<Entry>)
      modifies this
      ensures taken == if Redeemable(old(invites), secret, now) then Some(old(invites)[secret]) else None
      ensures invites == AfterConsume(old(invites), secret, now)
      ensures taken.Some? <==>
                && secret in old(invites) && !old(invites)[secret].revoked
                && (old(invites)[secret].expires == 0 || now < old(invites)[secret].expires)
      ensures taken.Some? ==> invites == old(invites) - {secret}
      ensures taken.None? ==> invites == old(invites)
      ensures generation == old(generation) + (if taken.Some? then 1 else 0)
    {
      if secret !in invites {
        return None;
      }
      var entry := invites[secret];
      if entry.revoked || (entry.expires > 0 && now >= entry.expires) {
        return None;
      }
      invites := invites - {secret};
      generation := generation + 1;
      return Some(entry);
    }

    /** Put a consumed entry back after a denied admission, unless it expired meanwhile or
        the slot was refilled. No stored entry is ever overwritten. */
    method RestoreInvite(secret: Secret, entry: Entry, now: nat) returns (restored: bool)
      modifies this
      ensures restored <==> secret !in old(invites) && (entry.expires == 0 || now < entry.expires)
      ensures restored ==> invites == old(invites)[secret := entry]
      ensures invites == AfterRestore(old(invites), secret, entry, now)
      ensures forall x :: x in old(invites) ==> x in invites && invites[x] == old(invites)[x]
      ensures generation == old(generation) + (if restored then 1 else 0)
    {
      if entry.expires > 0 && now >= entry.expires {
        return false;
      }
      if secret in invites {
        return false;
      }
      invites := invites[secret := entry];
      generation := generation + 1;
      return true;
    }

    /** Mark the one invite named. */
    method RevokeInvite(id: Id) returns (r: Revocation)
      modifies this
      ensures invites == AfterRevoke(old(invites), id)
      ensures r == NoMatch <==> forall x :: x in old(invites) ==> !(id <= old(invites)[x].id)
      ensures r == Revoked <==> exists x :: Named(old(invites), id) == {x}
      ensures r != Revoked ==> invites == old(invites)
      ensures forall x :: Named(old(invites), id) == {x} ==>
                && x in invites && invites[x].revoked
                && invites[x].id == old(invites)[x].id && invites[x].expires == old(invites)[x].expires
                && invites - {x} == old(invites) - {x}
      ensures generation == old(generation) + (if r == Revoked then 1 else 0)
    {
      var matches := Named(invites, id);
      if matches == {} {
        assert AfterRevoke(invites, id) == invites;
        return NoMatch;
      }
      var x :| x in matches;
      if matches != {x} {
        NotSingleton(matches, x);
        assert AfterRevoke(invites, id) == invites;
        return Ambiguous;
      }
      assert AfterRevoke(invites, id) == invites[x := invites[x].(revoked := true)];
      invites := invites[x := invites[x].(revoked := true)];
      generation := generation + 1;
      return Revoked;
    }
  }

  lemma NotSingleton<T>(s: set<T>, x: T)
    requires x in s && s != {x}
    ensures forall y :: s != {y}
  {
  }

  // ---------------------------------------------------------------- every interleaving

  datatype Claim = Claim(secret: Secret, entry: Entry)

  datatype Admission = Admission(who: Redeemer, secret: Secret)

  /** The book, the joins in progress, and the history of every invite ever minted: its
      expiry, the ones used up, the ones lost to expiry, and all admissions. */
  datatype State = State(
    clock: nat,
    stored: map<Secret, Entry>,
    held: map<Redeemer, Claim>,
    spent: set<Secret>,
    dropped: set<Secret>,
    minted: map<Secret, nat>,
    admissions: seq<Admission>)

  const EMPTY: State := State(0, map[], map[], {}, {}, map[], [])

  datatype Event =
    | Tick(millis: nat)
    | Mint(secret: Secret, id: Id, expires: nat)
    | Consume(who: Redeemer, secret: Secret)
    | Admit(who: Redeemer)
    | Deny(who: Redeemer)
    | Revoke(id: Id)

  /** One event. Minting draws a secret never used before; a redeemer holds one claim at a
      time. Expired entries stay in the book; one that cannot be restored is dropped. */
  function Apply(s: State, e: Event): State {
    match e
    case Tick(millis) => s.(clock := s.clock + millis)
    case Mint(secret, id, expires) =>
      if secret in s.minted then s
      else s.(stored := s.stored[secret := Entry(id, expires, false)], minted := s.minted[secret := expires])
    case Consume(who, secret) =>
      if who !in s.held && Redeemable(s.stored, secret, s.clock)
      then s.(stored := AfterConsume(s.stored, secret, s.clock), held := s.held[who := Claim(secret, s.stored[secret])])
      else s
    case Admit(who) =>
      if who in s.held
      then s.(held := s.held - {who}, spent := s.spent + {s.held[who].secret},
              admissions := s.admissions + [Admission(who, s.held[who].secret)])
      else s
    case Deny(who) =>
      if who !in s.held then s
      else
        var Claim(secret, entry) := s.held[who];
        s.(held := s.held - {who},
           stored := AfterRestore(s.stored, secret, entry, s.clock),
           dropped := if Restorable(s.stored, secret, entry, s.clock) then s.dropped else s.dropped + {secret})
    case Revoke(id) =>
      s.(stored := AfterRevoke(s.stored, id))
  }

  function Run(events: seq<Event>): State {
    if events == [] then EMPTY else Apply(Run(events[..|events| - 1]), events[|events| - 1])
  }

  ghost predicate Held(s: State, secret: Secret) {
    exists who :: who in s.held && s.held[who].secret == secret
  }

  // ---------------------------------------------------------------- conservation

  /** Where an invite is: exactly one of four places. */
  datatype Place = Stored | InRedemption(who: Redeemer) | Spent | Dropped | Nowhere

  ghost predicate At(s: State, secret: Secret, p: Place) {
    match p
    case Stored => secret in s.stored
    case InRedemption(who) => who in s.held && s.held[who].secret == secret
    case Spent => secret in s.spent
    case Dropped => secret in s.dropped
    case Nowhere => secret !in s.minted
  }

  /** No secret is in two places, and every minted one is in some place. */
  ghost predicate Conserved(s: State) {
    && (forall x :: x in s.stored ==> x in s.minted && x !in s.spent && x !in s.dropped)
    && (forall x :: x in s.spent ==> x in s.minted && x !in s.dropped)
    && (forall x :: x in s.dropped ==> x in s.minted)
    && (forall who :: who in s.held ==> Reserved(s, s.held[who].secret))
    && (forall a, b :: a in s.held && b in s.held && s.held[a].secret == s.held[b].secret ==> a == b)
    && (forall x :: x in s.minted ==> x in s.stored || x in s.spent || x in s.dropped || Held(s, x))
  }

  ghost predicate Reserved(s: State, x: Secret) {
    x in s.minted && x !in s.stored && x !in s.spent && x !in s.dropped
  }

  /** Entries keep the expiry they were minted with, and only expiry loses an invite; one
      that never expires is never lost. */
  ghost predicate TermsKept(s: State) {
    && (forall secret :: secret in s.stored ==> secret in s.minted && s.stored[secret].expires == s.minted[secret])
    && (forall who :: who in s.held ==>
          && s.held[who].secret in s.minted
          && s.held[who].entry.expires == s.minted[s.held[who].secret]
          && !s.held[who].entry.revoked)
    && (forall secret :: secret in s.dropped ==> secret in s.minted && Expired(s.minted[secret], s.clock))
  }

  /** Admissions and spent secrets correspond one to one. */
  ghost predicate AdmissionsMatch(s: State) {
    && (forall i :: 0 <= i < |s.admissions| ==> s.admissions[i].secret in s.spent)
    && (forall secret :: secret in s.spent ==> exists i :: 0 <= i < |s.admissions| && s.admissions[i].secret == secret)
    && (forall i, j :: 0 <= i < j < |s.admissions| ==> s.admissions[i].secret != s.admissions[j].secret)
  }

  ghost predicate Inv(s: State) {
    Conserved(s) && TermsKept(s) && AdmissionsMatch(s)
  }

  /** Claims kept across an event still reserve their secrets. */
  ghost predicate ClaimsKept(s: State, t: State, gone: set<Redeemer>) {
    forall who :: who in s.held && who !in gone ==> who in t.held && t.held[who] == s.held[who]
  }

  lemma StillHeld(s: State, t: State, gone: set<Redeemer>, x: Secret)
    requires ClaimsKept(s, t, gone) && Held(s, x)
    requires forall who :: who in gone && who in s.held ==> s.held[who].secret != x
    ensures Held(t, x)
  {
    var who :| who in s.held && s.held[who].secret == x;
    assert t.held[who].secret == x;
  }

  lemma RevokeKeepsKeys(invites: map<Secret, Entry>, id: Id)
    ensures AfterRevoke(invites, id).Keys == invites.Keys
  {
  }

  lemma BookEventConserves(s: State, e: Event)
    requires Conserved(s) && (e.Tick? || e.Mint? || e.Revoke?)
    ensures Conserved(Apply(s, e))
  {
    hide Held, AfterRevoke;
    var t := Apply(s, e);
    if e.Revoke? {
      RevokeKeepsKeys(s.stored, e.id);
    }
    forall x | Held(s, x) ensures Held(t, x) {
      StillHeld(s, t, {}, x);
    }
    forall who | who in t.held ensures Reserved(t, t.held[who].secret) {
      assert Reserved(s, s.held[who].secret);
    }
  }

  lemma ConsumeConserves(s: State, who: Redeemer, secret: Secret)
    requires Conserved(s)
    ensures Conserved(Apply(s, Consume(who, secret)))
  {
    var t := Apply(s, Consume(who, secret));
    if t != s {
      assert t.held[who].secret == secret;
      forall x | Held(s, x) ensures Held(t, x) {
        StillHeld(s, t, {}, x);
      }
      assert Held(t, secret);
      forall r | r in t.held ensures Reserved(t, t.held[r].secret) && (r != who ==> t.held[r].secret != secret) {
        if r != who {
          assert Reserved(s, s.held[r].secret);
        }
      }
    }
  }

  lemma ReleaseConserves(s: State, e: Event)
    requires Conserved(s) && (e.Admit? || e.Deny?)
    ensures Conserved(Apply(s, e))
  {
    hide Held;
    var t := Apply(s, e);
    if e.who in s.held {
      var secret := s.held[e.who].secret;
      assert Reserved(s, secret);
      forall x | Held(s, x) && x != secret ensures Held(t, x) {
        StillHeld(s, t, {e.who}, x);
      }
      forall r | r in t.held ensures Reserved(t, t.held[r].secret) {
        assert Reserved(s, s.held[r].secret);
      }
    }
  }

  lemma ApplyConserves(s: State, e: Event)
    requires Conserved(s)
    ensures Conserved(Apply(s, e))
  {
    hide Conserved, Apply;
    match e {
      case Consume(who, secret) => ConsumeConserves(s, who, secret);
      case Admit(_) => ReleaseConserves(s, e);
      case Deny(_) => ReleaseConserves(s, e);
      case _ => BookEventConserves(s, e);
    }
  }

  lemma ApplyKeepsTerms(s: State, e: Event)
    requires Conserved(s) && TermsKept(s)
    ensures TermsKept(Apply(s, e))
  {
    if e.Deny? && e.who in s.held {
      assert Reserved(s, s.held[e.who].secret);
    }
  }

  lemma ApplyKeepsAdmissions(s: State, e: Event)
    requires Inv(s)
    ensures AdmissionsMatch(Apply(s, e))
  {
    hide TermsKept;
    if e.Admit? && e.who in s.held {
      var secret := s.held[e.who].secret;
      assert Reserved(s, secret);
      var t := Apply(s, e);
      var last := |s.admissions|;
      assert t.admissions[last].secret == secret;
      forall x | x in t.spent ensures exists i :: 0 <= i < |t.admissions| && t.admissions[i].secret == x {
        if x in s.spent {
          var i :| 0 <= i < |s.admissions| && s.admissions[i].secret == x;
          assert t.admissions[i].secret == x;
        }
      }
    }
  }

  lemma {:induction false} RunKeepsInv(events: seq<Event>)
    ensures Inv(Run(events))
  {
    if events != [] {
      hide Conserved, TermsKept, AdmissionsMatch, Apply;
      var before := Run(events[..|events| - 1]);
      RunKeepsInv(events[..|events| - 1]);
      ApplyConserves(before, events[|events| - 1]);
      ApplyKeepsTerms(before, events[|events| - 1]);
      ApplyKeepsAdmissions(before, events[|events| - 1]);
    }
  }

  /** Over every interleaving, each minted invite is in exactly one place: stored, held by
      one redeemer, spent or dropped. */
  lemma InvitesAreConserved(events: seq<Event>, secret: Secret) returns (p: Place)
    requires secret in Run(events).minted
    ensures p != Nowhere && forall q :: At(Run(events), secret, q) <==> q == p
  {
    RunKeepsInv(events);
    var s := Run(events);
    if secret in s.stored {
      p := Stored;
    } else if secret in s.spent {
      p := Spent;
    } else if secret in s.dropped {
      p := Dropped;
    } else {
      var who :| who in s.held && s.held[who].secret == secret;
      p := InRedemption(who);
    }
    forall q | At(s, secret, q) ensures q == p {
      if q.InRedemption? {
        assert Reserved(s, s.held[q.who].secret);
      }
      if p.InRedemption? {
        assert Reserved(s, s.held[p.who].secret);
      }
    }
  }

  /** Over every interleaving, no secret admits twice. */
  lemma AtMostOneAdmission(events: seq<Event>, i: nat, j: nat)
    requires i < j < |Run(events).admissions|
    ensures Run(events).admissions[i].secret != Run(events).admissions[j].secret
  {
    RunKeepsInv(events);
  }

  /** An invite is good until it is used or expires: unexpired, or permanent, unspent and
      not being redeemed, it is stored, and redeeming it works exactly if it has not been
      revoked. */
  lemma GoodUntilUsedOrExpired(events: seq<Event>, secret: Secret)
    requires secret in Run(events).minted && !Expired(Run(events).minted[secret], Run(events).clock)
    requires secret !in Run(events).spent && !Held(Run(events), secret)
    ensures var s := Run(events);
            secret in s.stored && (Redeemable(s.stored, secret, s.clock) <==> !s.stored[secret].revoked)
  {
    var s := Run(events);
    RunKeepsInv(events);
  }

  /** A denied join costs its holder nothing unless it outlasts the expiry: consume, any
      ticks, then deny leaves the book as it was if and only if the invite has not expired by
      then; a permanent one never has. */
  lemma DenyUndoesConsumeIff(s: State, who: Redeemer, secret: Secret, millis: nat)
    requires who !in s.held && Redeemable(s.stored, secret, s.clock)
    ensures var t := Apply(Apply(Apply(s, Consume(who, secret)), Tick(millis)), Deny(who));
            t == s.(clock := s.clock + millis) <==> !Expired(s.stored[secret].expires, s.clock + millis)
  {
    assert (s.stored - {secret})[secret := s.stored[secret]] == s.stored;
    assert s.held[who := Claim(secret, s.stored[secret])] - {who} == s.held;
    assert secret !in s.stored - {secret};
  }

  // ---------------------------------------------------------------- revoking, and a whole life

  /** Only `x` among the stored invites has an id that starts with `id`. */
  ghost predicate NamesOnly(invites: map<Secret, Entry>, id: Id, x: Secret) {
    x in invites && id <= invites[x].id && forall y :: y in invites && id <= invites[y].id ==> y == x
  }

  /** Revoking marks that one and leaves everything else alone; unless there is exactly one,
      nothing changes. */
  lemma RevokeMeaning(invites: map<Secret, Entry>, id: Id, x: Secret)
    ensures NamesOnly(invites, id, x) ==>
              AfterRevoke(invites, id) == invites[x := Entry(invites[x].id, invites[x].expires, true)]
    ensures (forall y :: !NamesOnly(invites, id, y)) ==> AfterRevoke(invites, id) == invites
  {
    if NamesOnly(invites, id, x) {
      assert Named(invites, id) == {x};
    } else if forall y :: !NamesOnly(invites, id, y) {
      forall y | y in invites ensures Named(invites, id) != {y} {
        if Named(invites, id) == {y} {
          assert y in Named(invites, id);
          assert forall z :: z in invites && id <= invites[z].id ==> z in Named(invites, id);
          assert NamesOnly(invites, id, y);
        }
      }
    }
  }

  ghost predicate RevokedIn(s: State, x: Secret) {
    x in s.stored && s.stored[x].revoked
  }

  lemma RevokedStays(s: State, e: Event, x: Secret)
    requires Inv(s) && RevokedIn(s, x)
    ensures RevokedIn(Apply(s, e), x)
  {
    if e.Deny? && e.who in s.held {
      assert Reserved(s, s.held[e.who].secret);
    }
  }

  lemma {:induction false} RevokedStaysOverRuns(before: seq<Event>, later: seq<Event>, x: Secret)
    requires RevokedIn(Run(before), x)
    ensures RevokedIn(Run(before + later), x)
  {
    hide RevokedIn, Apply, Inv;
    if later == [] {
      assert before + later == before;
    } else {
      var n := |later| - 1;
      RevokedStaysOverRuns(before, later[..n], x);
      RunKeepsInv(before + later[..n]);
      RevokedStays(Run(before + later[..n]), later[n], x);
      assert (before + later)[..|before| + n] == before + later[..n];
    }
  }

  /** Once a stored invite alone has been named in a revocation, it never admits anyone, in
      no continuation. */
  lemma RevokedNeverAdmits(before: seq<Event>, id: Id, x: Secret, later: seq<Event>, i: nat)
    requires NamesOnly(Run(before).stored, id, x)
    requires i < |Run(before + [Revoke(id)] + later).admissions|
    ensures Run(before + [Revoke(id)] + later).admissions[i].secret != x
  {
    var revoked := before + [Revoke(id)];
    RevokeMeaning(Run(before).stored, id, x);
    assert revoked[..|before|] == before;
    assert RevokedIn(Run(revoked), x);
    hide Apply, Run;
    RevokedStaysOverRuns(revoked, later, x);
    RunKeepsInv(revoked + later);
  }

  lemma RunOneMore(events: seq<Event>, e: Event)
    ensures Run(events + [e]) == Apply(Run(events), e)
  {
    assert (events + [e])[..|events|] == events;
  }

  /** A fresh invite, permanent or redeemed in time, admits its redeemer: it leaves the book,
      is spent, and the admission is recorded. */
  lemma InviteAdmits(events: seq<Event>, secret: Secret, id: Id, expires: nat, millis: nat, who: Redeemer)
    requires secret !in Run(events).minted && who !in Run(events).held
    requires expires == 0 || Run(events).clock + millis < expires
    ensures var s := Run(events);
            var t := Run(events + [Mint(secret, id, expires)] + [Tick(millis)] + [Consume(who, secret)] + [Admit(who)]);
            && t.admissions == s.admissions + [Admission(who, secret)]
            && secret !in t.stored && t.spent == s.spent + {secret} && t.held == s.held
  {
    hide Run;
    var a := events + [Mint(secret, id, expires)];
    var b := a + [Tick(millis)];
    var c := b + [Consume(who, secret)];
    RunOneMore(events, Mint(secret, id, expires));
    RunOneMore(a, Tick(millis));
    RunOneMore(b, Consume(who, secret));
    RunOneMore(c, Admit(who));
    assert Run(c).held - {who} == Run(events).held;
  }

  // ---------------------------------------------------------------- the split that admitted twice

  /** The code before: validate under one lock, remove and admit under another, ignoring
      whether the removal found anything. */
  datatype OldState = OldState(stored: map<Secret, Entry>, validated: map<Redeemer, Secret>, admissions: seq<Admission>)

  datatype OldEvent = Validate(who: Redeemer, secret: Secret) | RemoveAndAdmit(who: Redeemer)

  function OldApply(s: OldState, e: OldEvent, now: nat): OldState {
    match e
    case Validate(who, secret) =>
      if Redeemable(s.stored, secret, now) then s.(validated := s.validated[who := secret]) else s
    case RemoveAndAdmit(who) =>
      if who !in s.validated then s
      else
        OldState(s.stored - {s.validated[who]}, s.validated - {who}, s.admissions + [Admission(who, s.validated[who])])
  }

  /** Each half of the old redemption: validating lets through exactly what is redeemable and
      removes nothing; the second half admits whoever was let through. */
  lemma OldHalves(s: OldState, who: Redeemer, secret: Secret, now: nat)
    ensures var t := OldApply(s, Validate(who, secret), now);
            && t.stored == s.stored && t.admissions == s.admissions
            && t.validated == if Redeemable(s.stored, secret, now) then s.validated[who := secret] else s.validated
    ensures var t := OldApply(s, RemoveAndAdmit(who), now);
            if who in s.validated
            then t.admissions == s.admissions + [Admission(who, s.validated[who])] && s.validated[who] !in t.stored
            else t == s
  {
  }

  function OldRun(s: OldState, events: seq<OldEvent>, now: nat): OldState {
    if events == [] then s
    else OldApply(OldRun(s, events[..|events| - 1], now), events[|events| - 1], now)
  }

  lemma OldRunLast(s: OldState, events: seq<OldEvent>, e: OldEvent, now: nat)
    ensures OldRun(s, events + [e], now) == OldApply(OldRun(s, events, now), e, now)
  {
    assert (events + [e])[..|events|] == events;
  }

  lemma {:induction false} OldRunAppend(s: OldState, a: seq<OldEvent>, b: seq<OldEvent>, now: nat)
    ensures OldRun(s, a + b, now) == OldRun(OldRun(s, a, now), b, now)
  {
    if b == [] {
      assert a + b == a;
    } else {
      hide OldApply, OldRun;
      var front, last := b[..|b| - 1], b[|b| - 1];
      OldRunAppend(s, a, front, now);
      OldRunLast(s, a + front, last, now);
      OldRunLast(OldRun(s, a, now), front, last, now);
      assert a + b == (a + front) + [last] && b == front + [last];
    }
  }

  function Validations(n: nat, secret: Secret): seq<OldEvent> {
    seq(n, i requires 0 <= i < n => Validate(i, secret))
  }

  function Removals(n: nat): seq<OldEvent> {
    seq(n, i requires 0 <= i < n => RemoveAndAdmit(i))
  }

  lemma {:induction false} AllValidate(s: OldState, n: nat, secret: Secret, now: nat)
    requires Redeemable(s.stored, secret, now)
    ensures var t := OldRun(s, Validations(n, secret), now);
            && t.stored == s.stored && t.admissions == s.admissions
            && forall i :: 0 <= i < n ==> i in t.validated && t.validated[i] == secret
  {
    if n > 0 {
      AllValidate(s, n - 1, secret, now);
      assert Validations(n, secret)[..n - 1] == Validations(n - 1, secret);
    }
  }

  lemma {:induction false} AllAdmit(s: OldState, n: nat, secret: Secret, now: nat)
    requires forall i :: 0 <= i < n ==> i in s.validated && s.validated[i] == secret
    ensures var t := OldRun(s, Removals(n), now);
            && |t.admissions| == |s.admissions| + n
            && (forall i :: |s.admissions| <= i < |t.admissions| ==> t.admissions[i].secret == secret)
            && (forall i :: i >= n && i in s.validated ==> i in t.validated && t.validated[i] == s.validated[i])
  {
    if n > 0 {
      AllAdmit(s, n - 1, secret, now);
      assert Removals(n)[..n - 1] == Removals(n - 1);
    }
  }

  /** The split check-then-remove admits any number of redeemers on one single-use secret. */
  lemma SplitAdmitsAnyNumber(n: nat, secret: Secret, now: nat) returns (events: seq<OldEvent>)
    ensures var t := OldRun(OldState(map[secret := Entry([], now + 1, false)], map[], []), events, now);
            |t.admissions| == n && forall i :: 0 <= i < n ==> t.admissions[i].secret == secret
  {
    var s := OldState(map[secret := Entry([], now + 1, false)], map[], []);
    var a, b := Validations(n, secret), Removals(n);
    AllValidate(s, n, secret, now);
    AllAdmit(OldRun(s, a, now), n, secret, now);
    OldRunAppend(s, a, b, now);
    events := a + b;
  }
}
