/** Roster hostnames: sanitizing, validity, collision renaming and admission. */
module Hostnames {
  import opened Options
  import opened Counting
  import opened Decimal
  import opened Identities

  const MAX_LEN: nat := 63

  predicate IsLower(c: char) { 'a' <= c <= 'z' }
  predicate IsUpper(c: char) { 'A' <= c <= 'Z' }
  predicate IsDigit(c: char) { '0' <= c <= '9' }

  predicate IsAlphanumeric(c: char) {
    IsLower(c) || IsUpper(c) || IsDigit(c)
  }

  function ToLower(c: char): char {
    if IsUpper(c) then (c as int + 32) as char else c
  }

  // ---------------------------------------------------------------- sanitizing

  function FirstLabel(raw: string): string {
    if raw == [] || raw[0] == '.' then [] else [raw[0]] + FirstLabel(raw[1..])
  }

  function CleanChar(c: char): char {
    if IsAlphanumeric(c) then ToLower(c) else '-'
  }

  function Clean(s: string): (r: string)
    ensures |r| == |s|
  {
    seq(|s|, i requires 0 <= i < |s| => CleanChar(s[i]))
  }

  function TrimStart(s: string): string {
    if s != [] && s[0] == '-' then TrimStart(s[1..]) else s
  }

  function TrimEnd(s: string): string {
    if s != [] && s[|s| - 1] == '-' then TrimEnd(s[..|s| - 1]) else s
  }

  function Take(s: string, n: nat): string {
    if |s| <= n then s else s[..n]
  }

  function Shorten(cleaned: string): string {
    TrimEnd(Take(TrimEnd(TrimStart(cleaned)), MAX_LEN))
  }

  function Sanitize(raw: string): Option<string> {
    var cleaned := Clean(FirstLabel(raw));
    var truncated := Shorten(cleaned);
    if truncated == [] then None else Some(truncated)
  }

  predicate ValidChar(c: char) {
    IsLower(c) || IsDigit(c) || c == '-'
  }

  predicate IsValid(name: string) {
    && name != [] && |name| <= MAX_LEN
    && name[0] != '-' && name[|name| - 1] != '-'
    && forall i :: 0 <= i < |name| ==> ValidChar(name[i])
  }

  // ---------------------------------------------------------------- what trimming leaves

  lemma {:induction false} TrimStartMeaning(s: string) returns (i: nat)
    ensures i <= |s| && TrimStart(s) == s[i..]
    ensures forall j :: 0 <= j < i ==> s[j] == '-'
    ensures i < |s| ==> s[i] != '-'
  {
    if s != [] && s[0] == '-' {
      var k := TrimStartMeaning(s[1..]);
      i := k + 1;
      forall j | 0 <= j < i ensures s[j] == '-' {
        if j > 0 {
          assert s[j] == s[1..][j - 1];
        }
      }
    } else {
      i := 0;
    }
  }

  lemma {:induction false} TrimEndMeaning(s: string) returns (n: nat)
    ensures n <= |s| && TrimEnd(s) == s[..n]
    ensures forall j :: n <= j < |s| ==> s[j] == '-'
    ensures n > 0 ==> s[n - 1] != '-'
  {
    if s != [] && s[|s| - 1] == '-' {
      n := TrimEndMeaning(s[..|s| - 1]);
    } else {
      n := |s|;
    }
  }

  lemma TrimEndStaysNonEmpty(s: string)
    requires s != [] && s[0] != '-'
    ensures TrimEnd(s) != [] && TrimEnd(s)[0] == s[0]
  {
    var n := TrimEndMeaning(s);
  }

  lemma CleanCharValid(c: char)
    ensures ValidChar(CleanChar(c)) && (CleanChar(c) == '-' <==> !IsAlphanumeric(c))
    ensures ValidChar(c) ==> CleanChar(c) == c
  {
  }

  /** What trimming, cutting and trimming again leave of a cleaned label. */
  lemma ShortenMeaning(c: string) returns (i: nat, n: nat)
    ensures i <= |c| && (forall j :: 0 <= j < i ==> c[j] == '-') && (i < |c| ==> c[i] != '-')
    ensures i == |c| ==> Shorten(c) == []
    ensures i < |c| ==>
              && 1 <= n <= MAX_LEN && i + n <= |c| && Shorten(c) == c[i..i + n] && c[i + n - 1] != '-'
              && forall j :: i + n <= j < |c| && j < i + MAX_LEN ==> c[j] == '-'
  {
    i := TrimStartMeaning(c);
    var s := c[i..];
    var m := TrimEndMeaning(s);
    var t := Take(s[..m], MAX_LEN);
    n := TrimEndMeaning(t);
    if i < |c| {
      TrimEndStaysNonEmpty(s);
      assert t == s[..|t|];
      assert t[0] == c[i];
      TrimEndStaysNonEmpty(t);
      assert t[..n] == s[..n];
      assert s[..n] == c[i..i + n];
      assert t[n - 1] == c[i + n - 1];
      forall j | i + n <= j < |c| && j < i + MAX_LEN ensures c[j] == '-' {
        if j - i < |t| {
          assert t[j - i] == c[j];
        } else {
          assert s[j - i] == c[j];
        }
      }
    }
  }

  /** The label shortened, in terms of itself. */
  lemma ShortenedLabel(head: string) returns (i: nat, n: nat)
    ensures i <= |head|
    ensures forall j :: 0 <= j < i ==> !IsAlphanumeric(head[j])
    ensures i < |head| ==> IsAlphanumeric(head[i])
    ensures Shorten(Clean(head)) == [] <==> i == |head|
    ensures i < |head| ==>
              && 1 <= n <= 63 && i + n <= |head|
              && Shorten(Clean(head)) == Clean(head)[i..i + n]
              && IsAlphanumeric(head[i + n - 1])
              && forall j :: i + n <= j < |head| && j < i + 63 ==> !IsAlphanumeric(head[j])
  {
    hide IsAlphanumeric, CleanChar, TrimEnd, TrimStart, Take;
    forall j | 0 <= j < |head| ensures Clean(head)[j] == '-' <==> !IsAlphanumeric(head[j]) {
      CleanCharValid(head[j]);
    }
    i, n := ShortenMeaning(Clean(head));
  }

  /** The first label is what stands before the first dot, or everything. */
  lemma {:induction false} FirstLabelMeaning(raw: string)
    ensures FirstLabel(raw) <= raw && '.' !in FirstLabel(raw)
    ensures |FirstLabel(raw)| < |raw| ==> raw[|FirstLabel(raw)|] == '.'
  {
    if raw != [] && raw[0] != '.' {
      FirstLabelMeaning(raw[1..]);
      assert raw == [raw[0]] + raw[1..];
    }
  }

  ghost predicate LetterOrDigit(c: char) {
    'a' <= c <= 'z' || 'A' <= c <= 'Z' || '0' <= c <= '9'
  }

  /** How one character is written: letters small, digits as they are, all else a hyphen. */
  ghost predicate Written(c: char, as_: char) {
    if 'A' <= c <= 'Z' then as_ as int == c as int + 32
    else if 'a' <= c <= 'z' || '0' <= c <= '9' then as_ == c
    else as_ == '-'
  }

  lemma CleanedIsWritten(c: char)
    ensures Written(c, CleanChar(c)) && (IsAlphanumeric(c) <==> LetterOrDigit(c))
  {
  }

  /** The sanitized name in terms of the raw text: before the first dot, or the end, it starts
      at the first letter or digit, and is as much of what follows as fits in 63 characters
      and ends in a letter or digit, each character written as above. Nothing survives
      exactly when there is no letter or digit before the first dot. */
  lemma SanitizeMeaning(raw: string) returns (end: nat, i: nat, n: nat)
    ensures i <= end <= |raw| && (end < |raw| ==> raw[end] == '.') && '.' !in raw[..end]
    ensures forall j :: 0 <= j < i ==> !LetterOrDigit(raw[j])
    ensures i < end ==> LetterOrDigit(raw[i])
    ensures Sanitize(raw).None? <==> i == end
    ensures i < end ==>
              && 1 <= n <= 63 && i + n <= end && |Sanitize(raw).value| == n
              && (forall j :: 0 <= j < n ==> Written(raw[i + j], Sanitize(raw).value[j]))
              && LetterOrDigit(raw[i + n - 1])
              && forall j :: i + n <= j < end && j < i + 63 ==> !LetterOrDigit(raw[j])
  {
    hide IsAlphanumeric, CleanChar, LetterOrDigit, Written, Shorten;
    var head := FirstLabel(raw);
    end := |head|;
    FirstLabelMeaning(raw);
    i, n := ShortenedLabel(head);
    forall j | 0 <= j < end
      ensures Written(raw[j], Clean(head)[j]) && (IsAlphanumeric(head[j]) <==> LetterOrDigit(raw[j]))
    {
      CleanedIsWritten(head[j]);
    }
  }

  /** Sanitizing yields only names the validity check accepts. */
  lemma SanitizedIsValid(raw: string)
    requires Sanitize(raw).Some?
    ensures IsValid(Sanitize(raw).value)
  {
    var head := FirstLabel(raw);
    var i, n := ShortenedLabel(head);
    var name := Sanitize(raw).value;
    forall j | 0 <= j < |name| ensures ValidChar(name[j]) && (name[j] == '-' <==> !IsAlphanumeric(head[i + j])) {
      CleanCharValid(head[i + j]);
      assert name[j] == Clean(head)[i + j];
    }
  }

  /** Nothing survives exactly when every letter or digit has a dot before it. */
  lemma SanitizeNoneIff(raw: string)
    ensures Sanitize(raw).None? <==> forall j :: 0 <= j < |raw| && LetterOrDigit(raw[j]) ==> '.' in raw[..j]
  {
    hide LetterOrDigit, Sanitize;
    var end, i, n := SanitizeMeaning(raw);
    if i < end {
      assert '.' !in raw[..i];
    } else {
      forall j | 0 <= j < |raw| && LetterOrDigit(raw[j]) ensures '.' in raw[..j] {
        assert j > end by { NotADot(raw[j]); }
        assert raw[..j][end] == '.';
      }
    }
  }

  lemma NotADot(c: char)
    ensures LetterOrDigit(c) ==> c != '.'
  {
  }

  lemma {:induction false} FirstLabelOfUndotted(s: string)
    requires forall j :: 0 <= j < |s| ==> s[j] != '.'
    ensures FirstLabel(s) == s
  {
    if s != [] {
      FirstLabelOfUndotted(s[1..]);
    }
  }

  lemma ValidIsFixed(name: string)
    requires IsValid(name)
    ensures Sanitize(name) == Some(name)
  {
    hide FirstLabel, CleanChar;
    FirstLabelOfUndotted(name);
    forall j | 0 <= j < |name| ensures Clean(name)[j] == name[j] {
      CleanCharValid(name[j]);
    }
    assert Clean(name) == name;
    assert Shorten(name) == name;
  }

  /** The names sanitizing leaves alone are exactly the valid ones. */
  lemma FixedPointsAreValidNames(name: string)
    ensures Sanitize(name) == Some(name) <==> IsValid(name)
  {
    if IsValid(name) {
      ValidIsFixed(name);
    } else if Sanitize(name) == Some(name) {
      SanitizedIsValid(name);
    }
  }

  /** Sanitizing twice is sanitizing once. */
  lemma SanitizeIdempotent(raw: string)
    requires Sanitize(raw).Some?
    ensures Sanitize(Sanitize(raw).value) == Sanitize(raw)
  {
    SanitizedIsValid(raw);
    ValidIsFixed(Sanitize(raw).value);
  }

  // ---------------------------------------------------------------- collision renaming

  function Candidate(desired: string, i: nat): string {
    desired + "-" + Text(i)
  }

  lemma CandidatesDiffer(desired: string, i: nat, j: nat)
    requires i != j
    ensures Candidate(desired, i) != Candidate(desired, j) && Candidate(desired, i) != desired
  {
    hide Text;
    var stem := desired + "-";
    if Candidate(desired, i) == Candidate(desired, j) {
      assert Text(i) == Candidate(desired, i)[|stem|..] == Candidate(desired, j)[|stem|..] == Text(j);
      TextInjective(i, j);
      assert false;
    }
    assert |Candidate(desired, i)| > |desired|;
  }

  /** The taken names a search that has reached suffix `n` has met. */
  ghost function Met(desired: string, n: nat): seq<string> {
    [desired] + seq(n, k requires 0 <= k < n => Candidate(desired, k + 1))
  }

  /** Every suffix tried and refused is one more taken name. */
  lemma SuffixBound(desired: string, taken: set<string>, i: nat)
    requires i >= 1 && desired in taken && forall j :: 1 <= j < i ==> Candidate(desired, j) in taken
    ensures i <= |taken|
  {
    hide Candidate;
    var met := Met(desired, i - 1);
    forall a, b | 0 <= a < b < |met| ensures met[a] != met[b] {
      if a == 0 {
        CandidatesDiffer(desired, b, b + 1);
      } else {
        CandidatesDiffer(desired, a, b);
      }
    }
    DistinctCount(met);
    forall x | x in Elements(met) ensures x in taken {
      var k :| 0 <= k < |met| && met[k] == x;
      assert k == 0 || met[k] == Candidate(desired, k);
    }
    SubsetIsSmaller(Elements(met), taken);
  }

  /** The first free suffix at or after `i`. */
  function FreeSuffix(desired: string, taken: set<string>, i: nat): (k: nat)
    requires i >= 1 && desired in taken && forall j :: 1 <= j < i ==> Candidate(desired, j) in taken
    ensures i <= k <= |taken| && Candidate(desired, k) !in taken
    ensures forall j :: 1 <= j < k ==> Candidate(desired, j) in taken
    decreases |taken| + 1 - i
  {
    SuffixBound(desired, taken, i);
    if Candidate(desired, i) !in taken then i
    else
      SuffixBound(desired, taken, i + 1);
      FreeSuffix(desired, taken, i + 1)
  }

  function Resolve(desired: string, taken: set<string>): string {
    if desired !in taken then desired else Candidate(desired, FreeSuffix(desired, taken, 1))
  }

  /** The renaming loop. It ends by a suffix no larger than the number of distinct taken
      names, so the 32-bit counter of the source never overflows below 2^32 - 1 of them. */
  method ResolveCollision(desired: string, taken: seq<string>) returns (name: string)
    ensures name == Resolve(desired, Elements(taken))
    ensures name !in taken
  {
    if desired !in taken {
      return desired;
    }
    var i := 1;
    SuffixBound(desired, Elements(taken), 1);
    while Candidate(desired, i) in taken
      invariant i >= 1
      invariant forall j :: 1 <= j < i ==> Candidate(desired, j) in Elements(taken)
      invariant i <= |Elements(taken)|
      invariant FreeSuffix(desired, Elements(taken), i) == FreeSuffix(desired, Elements(taken), 1)
      decreases |Elements(taken)| - i
    {
      assert Candidate(desired, i) in Elements(taken);
      SuffixBound(desired, Elements(taken), i + 1);
      i := i + 1;
    }
    name := Candidate(desired, i);
  }

  /** The result is free; a taken name gets the least free suffix, at most the number of
      taken names. */
  lemma ResolveMeaning(desired: string, taken: set<string>)
    ensures Resolve(desired, taken) !in taken
    ensures desired !in taken ==> Resolve(desired, taken) == desired
    ensures desired in taken ==> exists k: nat ::
              && 1 <= k <= |taken| && Resolve(desired, taken) == desired + "-" + Text(k)
              && forall j: nat :: 1 <= j < k ==> desired + "-" + Text(j) in taken
  {
    if desired in taken {
      var k := FreeSuffix(desired, taken, 1);
      assert Resolve(desired, taken) == desired + "-" + Text(k);
      forall j: nat | 1 <= j < k ensures desired + "-" + Text(j) in taken {
        assert Candidate(desired, j) in taken;
      }
    }
  }

  /** A renamed valid name is valid exactly as long as it stays within 63 characters. */
  lemma ResolvedValidIff(desired: string, taken: set<string>)
    requires IsValid(desired)
    ensures IsValid(Resolve(desired, taken)) <==> |Resolve(desired, taken)| <= 63
  {
    if desired in taken {
      var k := FreeSuffix(desired, taken, 1);
      var name := Candidate(desired, k);
      var ds := Digits(k);
      forall j | 0 <= j < |name| ensures ValidChar(name[j]) {
        if j > |desired| {
          assert name[j] == Text(k)[j - |desired| - 1] == '0' + ds[j - |desired| - 1] as char;
        }
      }
      assert name[|name| - 1] == Text(k)[|ds| - 1] == '0' + ds[|ds| - 1] as char;
      assert name[0] == desired[0];
    }
  }

  /** Some suffix that fits in 63 characters gives a free name. */
  ghost predicate RoomFor(desired: string, taken: set<string>) {
    exists k: nat :: k >= 1 && |desired| + 1 + |Digits(k)| <= 63 && Candidate(desired, k) !in taken
  }

  /** Renaming keeps a valid name valid exactly when the name is free or some suffix that
      fits is; a longer suffix is never taken while a shorter one is free. */
  lemma RenamingKeepsValidIff(desired: string, taken: set<string>)
    requires IsValid(desired)
    ensures IsValid(Resolve(desired, taken)) <==> desired !in taken || RoomFor(desired, taken)
  {
    hide IsValid, Candidate, Digits;
    ResolvedValidIff(desired, taken);
    if desired in taken {
      var least := FreeSuffix(desired, taken, 1);
      CandidateLength(desired, least);
      if k: nat :| k >= 1 && |desired| + 1 + |Digits(k)| <= 63 && Candidate(desired, k) !in taken {
        assert least <= k;
        DigitsGrow(least, k);
      }
    }
  }

  lemma CandidateLength(desired: string, k: nat)
    ensures |Candidate(desired, k)| == |desired| + 1 + |Digits(k)|
  {
  }

  /** A taken name of 62 characters or more has no room: its renaming is never valid. */
  lemma LongNameIsRenamedInvalid(desired: string, taken: set<string>)
    requires IsValid(desired) && desired in taken && |desired| >= 62
    ensures !IsValid(Resolve(desired, taken))
  {
    RenamingKeepsValidIff(desired, taken);
    assert forall k: nat :: |Digits(k)| >= 1;
  }

  /** So "a renamed valid name is valid" is false: take 62 letters that are taken. */
  lemma RenamingCanInvalidate(desired: string)
    requires desired == seq(62, _ => 'a')
    ensures IsValid(desired) && !IsValid(Resolve(desired, {desired}))
  {
    LongNameIsRenamedInvalid(desired, {desired});
  }

  // ---------------------------------------------------------------- admission

  datatype Assignment = Assigned(name: string) | Conflict(name: string)

  /** An invite-bound name is assigned verbatim or refused; a joiner's own is renamed. */
  function AdmissionHostname(desired: string, taken: set<string>, authoritative: bool): Assignment {
    if authoritative then if desired in taken then Conflict(desired) else Assigned(desired)
    else Assigned(Resolve(desired, taken))
  }

  /** An invite-bound name is refused exactly when it is taken, and otherwise assigned as it
      is; a joiner's own name is never refused: it is kept when free and renamed when not. */
  lemma AdmissionMeaning(desired: string, taken: set<string>, authoritative: bool)
    ensures var a := AdmissionHostname(desired, taken, authoritative);
            && (a.Conflict? <==> authoritative && desired in taken)
            && (a.Conflict? ==> a.name == desired)
            && (desired !in taken ==> a == Assigned(desired))
            && (!authoritative ==> a == Assigned(Resolve(desired, taken)) && a.name !in taken)
  {
    ResolveMeaning(desired, taken);
  }

  type Names = map<Identity, string>

  datatype Event = Admit(id: Identity, desired: string, authoritative: bool) | Remove(id: Identity)

  ghost function TakenByOthers(names: Names, id: Identity): set<string> {
    set other | other in names && other != id :: names[other]
  }

  /** A refused admission leaves the roster alone. */
  ghost function Apply(names: Names, e: Event): Names {
    match e
    case Remove(id) => names - {id}
    case Admit(id, desired, authoritative) =>
      match AdmissionHostname(desired, TakenByOthers(names, id), authoritative)
      case Conflict(_) => names
      case Assigned(name) => names[id := name]
  }

  ghost function Run(events: seq<Event>): Names {
    if events == [] then map[] else Apply(Run(events[..|events| - 1]), events[|events| - 1])
  }

  lemma RunOneMore(events: seq<Event>, e: Event)
    ensures Run([]) == map[] && Run(events + [e]) == Apply(Run(events), e)
  {
    assert (events + [e])[..|events|] == events;
  }

  ghost predicate NamesDistinct(names: Names) {
    forall a, b :: a in names && b in names && names[a] == names[b] ==> a == b
  }

  lemma AdmittedNameIsFree(names: Names, id: Identity, desired: string, authoritative: bool)
    requires AdmissionHostname(desired, TakenByOthers(names, id), authoritative).Assigned?
    ensures AdmissionHostname(desired, TakenByOthers(names, id), authoritative).name !in TakenByOthers(names, id)
    ensures authoritative ==> AdmissionHostname(desired, TakenByOthers(names, id), authoritative).name == desired
  {
    ResolveMeaning(desired, TakenByOthers(names, id));
  }

  /** Over every run of admissions and removals, no two members share a name. */
  lemma {:induction false} RunKeepsNamesDistinct(events: seq<Event>)
    ensures NamesDistinct(Run(events))
  {
    hide AdmissionHostname, Resolve;
    if events != [] {
      var before, e := Run(events[..|events| - 1]), events[|events| - 1];
      RunKeepsNamesDistinct(events[..|events| - 1]);
      if e.Admit? && AdmissionHostname(e.desired, TakenByOthers(before, e.id), e.authoritative).Assigned? {
        AdmittedNameIsFree(before, e.id, e.desired, e.authoritative);
        assert forall other :: other in before && other != e.id ==> before[other] in TakenByOthers(before, e.id);
      }
    }
  }

  ghost predicate HeldByOther(names: Names, id: Identity, name: string) {
    exists other :: other in names && other != id && names[other] == name
  }

  /** One admission or removal, on the roster: the member gets the name it asks for exactly
      when nobody else has it, a refused one changes nothing, a removed one has none, and
      nobody else is touched. */
  lemma EventMeaning(names: Names, e: Event)
    ensures e.Remove? ==> Apply(names, e) == names - {e.id}
    ensures e.Admit? && e.authoritative && HeldByOther(names, e.id, e.desired) ==> Apply(names, e) == names
    ensures e.Admit? && !(e.authoritative && HeldByOther(names, e.id, e.desired)) ==>
              var after := Apply(names, e);
              && e.id in after && after - {e.id} == names - {e.id} && e.desired <= after[e.id]
              && (after[e.id] == e.desired <==> !HeldByOther(names, e.id, e.desired))
  {
    if e.Admit? {
      AdmissionMeaning(e.desired, TakenByOthers(names, e.id), e.authoritative);
      ResolveMeaning(e.desired, TakenByOthers(names, e.id));
    }
  }
}
