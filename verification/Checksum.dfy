/** The Internet checksum of an IPv4 header (section 1 of RFC 1071): the summing and folding
    loops, the check that trusts a header, and what that check can and cannot detect. */
module Checksum {
  import opened Words

  const HEADER_LEN: nat := 20
  /** The checksum is the sixth 16-bit word of the header. */
  const CHECKSUM_WORD: nat := 5

  function WordAt(h: Bytes, i: nat): u16
    requires 2 * i + 1 < |h|
  {
    (h[2 * i] as int) * 0x100 + (h[2 * i + 1] as int)
  }

  function SetWord(h: Bytes, i: nat, w: u16): (r: Bytes)
    requires 2 * i + 1 < |h|
    ensures |r| == |h|
  {
    h[2 * i := w / 0x100][2 * i + 1 := w % 0x100]
  }

  /** The plain sum of the first `n` words. */
  function Sum(h: Bytes, n: nat): nat
    requires 2 * n <= |h|
  {
    if n == 0 then 0 else Sum(h, n - 1) + WordAt(h, n - 1)
  }

  /** Carries folded back in until sixteen bits remain. */
  function Fold(sum: nat): u16 {
    if sum / 0x1_0000 == 0 then sum else Fold(sum % 0x1_0000 + sum / 0x1_0000)
  }

  /** The one's-complement checksum of a header, its checksum field taken as zero. */
  function HeaderChecksum(h: Bytes): u16
    requires |h| >= HEADER_LEN
  {
    0xFFFF - Fold(Sum(SetWord(h, CHECKSUM_WORD, 0), 10))
  }

  /** The check the fragmenter makes: the stored checksum equals a fresh one. */
  predicate Accepts(h: Bytes)
    requires |h| >= HEADER_LEN
  {
    WordAt(h, CHECKSUM_WORD) == HeaderChecksum(h)
  }

  /** The receiver's rule of RFC 1071: all words, the checksum included, sum to all ones. */
  predicate SumsToOnes(h: Bytes)
    requires |h| >= HEADER_LEN
  {
    Fold(Sum(h, 10)) == 0xFFFF
  }

  function WithChecksum(h: Bytes): (r: Bytes)
    requires |h| >= HEADER_LEN
    ensures |r| == |h|
  {
    SetWord(h, CHECKSUM_WORD, HeaderChecksum(h))
  }

  /** Zero the field, sum, fold, complement and store, in place. */
  method WriteChecksum(p: array<u8>)
    requires p.Length >= HEADER_LEN
    modifies p
    ensures p[..] == WithChecksum(old(p[..]))
    ensures Accepts(p[..]) && SumsToOnes(p[..])
  {
    ghost var start := p[..];
    p[10] := 0;
    p[11] := 0;
    ghost var zeroed := p[..];
    assert zeroed == SetWord(start, CHECKSUM_WORD, 0);
    var sum := 0;
    var i := 0;
    while i < 20
      invariant 0 <= i <= 20 && i % 2 == 0
      invariant p[..] == zeroed
      invariant sum == Sum(zeroed, i / 2) && sum <= (i / 2) * 0xFFFF
      decreases 20 - i
    {
      assert p[i] == zeroed[i] && p[i + 1] == zeroed[i + 1];
      sum := sum + ((p[i] as int) * 0x100 + (p[i + 1] as int));
      i := i + 2;
    }
    while sum / 0x1_0000 != 0
      invariant 0 <= sum < WORD && p[..] == zeroed
      invariant Fold(sum) == Fold(Sum(zeroed, 10))
      decreases sum
    {
      sum := sum % 0x1_0000 + sum / 0x1_0000;
    }
    var csum := 0xFFFF - sum;
    p[10] := csum / 0x100;
    p[11] := csum % 0x100;
    assert p[..] == zeroed[10 := csum / 0x100][11 := csum % 0x100];
    assert p[..] == WithChecksum(start);
    WrittenIsAccepted(start);
  }

  // ---------------------------------------------------------------- sums and folding

  lemma WordAfterSet(h: Bytes, i: nat, w: u16, j: nat)
    requires 2 * i + 1 < |h| && 2 * j + 1 < |h|
    ensures WordAt(SetWord(h, i, w), j) == if i == j then w else WordAt(h, j)
  {
  }

  /** Replacing one word moves the sum by the difference. */
  lemma {:induction false} SumAfterSet(h: Bytes, i: nat, w: u16, n: nat)
    requires 2 * i + 1 < |h| && 2 * n <= |h|
    ensures Sum(SetWord(h, i, w), n) == Sum(h, n) + (if i < n then w - WordAt(h, i) else 0)
  {
    if n > 0 {
      SumAfterSet(h, i, w, n - 1);
      WordAfterSet(h, i, w, n - 1);
    }
  }

  /** Folding keeps the value modulo 65535, and only zero folds to zero. */
  lemma {:induction false} FoldMeaning(sum: nat)
    ensures Fold(sum) % 0xFFFF == sum % 0xFFFF
    ensures Fold(sum) == 0 <==> sum == 0
  {
    if sum / 0x1_0000 != 0 {
      var next := sum % 0x1_0000 + sum / 0x1_0000;
      FoldMeaning(next);
      ModOfMultiple(next, 0xFFFF, sum / 0x1_0000);
      assert sum == next + 0xFFFF * (sum / 0x1_0000);
    }
  }

  lemma FoldValue(sum: nat)
    ensures Fold(sum) == if sum == 0 then 0 else if sum % 0xFFFF == 0 then 0xFFFF else sum % 0xFFFF
  {
    hide Fold;
    FoldMeaning(sum);
  }

  /** When a field completes a sum to all ones, and when it is the sum's complement. */
  lemma FieldCompletes(rest: nat, w: u16)
    ensures w == 0xFFFF - Fold(rest) <==> Fold(rest + w) == 0xFFFF && (w != 0xFFFF || rest == 0)
    ensures Fold(rest + w) == 0xFFFF ==> (w == Fold(rest) <==> w == 0xFFFF && rest != 0)
  {
    hide Fold;
    FoldValue(rest);
    FoldValue(rest + w);
    var r := rest % 0xFFFF;
    assert rest == r + 0xFFFF * (rest / 0xFFFF);
    ModOfMultiple(r + w, 0xFFFF, rest / 0xFFFF);
    assert (rest + w) % 0xFFFF == (r + w) % 0xFFFF;
  }

  /** Two sums fold alike exactly when they agree modulo 65535 and in being zero. */
  lemma FoldEqualIff(a: nat, b: nat)
    ensures Fold(a) == Fold(b) <==> a % 0xFFFF == b % 0xFFFF && (a == 0 <==> b == 0)
  {
    FoldMeaning(a);
    FoldMeaning(b);
  }

  /** The sum of the nine words other than the checksum. */
  function RestSum(h: Bytes): nat
    requires |h| >= HEADER_LEN
  {
    Sum(SetWord(h, CHECKSUM_WORD, 0), 10)
  }

  lemma SumIsRestPlusField(h: Bytes)
    requires |h| >= HEADER_LEN
    ensures Sum(h, 10) == RestSum(h) + WordAt(h, CHECKSUM_WORD)
  {
    SumAfterSet(h, CHECKSUM_WORD, 0, 10);
  }

  // ---------------------------------------------------------------- what the checks mean

  /** A written checksum satisfies both the fragmenter's check and the receiver's rule, for
      every header. */
  lemma WrittenIsAccepted(h: Bytes)
    requires |h| >= HEADER_LEN
    ensures Accepts(WithChecksum(h)) && SumsToOnes(WithChecksum(h))
  {
    var c := HeaderChecksum(h);
    var r := WithChecksum(h);
    WordAfterSet(h, CHECKSUM_WORD, c, CHECKSUM_WORD);
    assert SetWord(r, CHECKSUM_WORD, 0) == SetWord(h, CHECKSUM_WORD, 0);
    AcceptsIff(r);
  }

  /** The fragmenter's check is the receiver's rule, except that it refuses the second
      spelling of zero: a field of all ones over a non-zero rest. */
  lemma AcceptsIff(h: Bytes)
    requires |h| >= HEADER_LEN
    ensures Accepts(h) <==> SumsToOnes(h) && (WordAt(h, CHECKSUM_WORD) != 0xFFFF || RestSum(h) == 0)
  {
    hide Sum, Fold, SetWord, WordAt;
    SumIsRestPlusField(h);
    FieldCompletes(RestSum(h), WordAt(h, CHECKSUM_WORD));
  }

  /** Changing one word of an accepted header goes unnoticed exactly when it swaps all
      zeros and all ones in a word other than the checksum, over a non-zero remainder. */
  lemma OneWordChangeUnnoticedIff(h: Bytes, i: nat, w: u16)
    requires |h| >= HEADER_LEN && i < 10 && Accepts(h)
    ensures var old_ := WordAt(h, i);
            Accepts(SetWord(h, i, w)) <==>
              || w == old_
              || (&& i != CHECKSUM_WORD
                  && ((w == 0 && old_ == 0xFFFF) || (w == 0xFFFF && old_ == 0))
                  && RestSum(h) - old_ != 0)
  {
    hide Sum, Fold, WordAt;
    var g := SetWord(h, i, w);
    WordAfterSet(h, i, w, CHECKSUM_WORD);
    if i == CHECKSUM_WORD {
      assert SetWord(g, CHECKSUM_WORD, 0) == SetWord(h, CHECKSUM_WORD, 0);
    } else {
      var z := SetWord(h, CHECKSUM_WORD, 0);
      assert SetWord(g, CHECKSUM_WORD, 0) == SetWord(z, i, w);
      SumAfterSet(z, i, w, 10);
      WordAfterSet(h, CHECKSUM_WORD, 0, i);
      FoldEqualIff(RestSum(h), RestSum(g));
      SumAtLeastWord(z, i, 10);
    }
  }

  lemma {:induction false} SumAtLeastWord(h: Bytes, i: nat, n: nat)
    requires i < n && 2 * n <= |h|
    ensures Sum(h, n) >= WordAt(h, i)
  {
    if i < n - 1 {
      SumAtLeastWord(h, i, n - 1);
    }
  }

  // ---------------------------------------------------------------- on bytes

  /** Two bytes, the most significant first. */
  function Pair(high: u8, low: u8): nat {
    256 * (high as int) + (low as int)
  }

  /** The nine header words other than the checksum, added up. */
  function NineWords(h: Bytes): nat
    requires |h| >= 20
  {
    Pair(h[0], h[1]) + Pair(h[2], h[3]) + Pair(h[4], h[5]) + Pair(h[6], h[7]) + Pair(h[8], h[9])
    + Pair(h[12], h[13]) + Pair(h[14], h[15]) + Pair(h[16], h[17]) + Pair(h[18], h[19])
  }

  lemma RestIsNineWords(h: Bytes)
    requires |h| >= HEADER_LEN
    ensures RestSum(h) == NineWords(h)
  {
    var z := SetWord(h, CHECKSUM_WORD, 0);
    assert Sum(z, 1) == WordAt(z, 0);
    assert Sum(z, 2) == Sum(z, 1) + WordAt(z, 1);
    assert Sum(z, 4) == Sum(z, 2) + WordAt(z, 2) + WordAt(z, 3);
    assert Sum(z, 6) == Sum(z, 4) + WordAt(z, 4) + WordAt(z, 5);
    assert Sum(z, 8) == Sum(z, 6) + WordAt(z, 6) + WordAt(z, 7);
    assert Sum(z, 10) == Sum(z, 8) + WordAt(z, 8) + WordAt(z, 9);
  }

  /** The checksum of a header holds when bytes 10 and 11, most significant first, bring the
      other nine words to a multiple of 65535; they are all ones only over nothing. */
  predicate BytesHold(h: Bytes)
    requires |h| >= 20
  {
    var stored := Pair(h[10], h[11]);
    (NineWords(h) + stored) % 65535 == 0 && (stored == 65535 <==> NineWords(h) == 0)
  }

  lemma AcceptsIffBytesHold(h: Bytes)
    requires |h| >= HEADER_LEN
    ensures Accepts(h) <==> BytesHold(h)
  {
    hide Sum, Fold, SetWord, NineWords;
    RestIsNineWords(h);
    FieldMatches(NineWords(h), WordAt(h, CHECKSUM_WORD));
  }

  lemma FieldMatches(rest: nat, stored: u16)
    ensures stored == 0xFFFF - Fold(rest) <==> (rest + stored) % 65535 == 0 && (stored == 65535 <==> rest == 0)
  {
    hide Fold;
    FoldMeaning(rest);
    var f := Fold(rest);
    DivMod(rest, 65535);
    DivMod(f, 65535);
    DivMod(rest + stored, 65535);
    if stored == 0xFFFF - f {
      DivModUnique(rest + stored, 65535, rest / 65535 + 1 - f / 65535, 0);
    }
  }

  /** Writing the checksum changes bytes 10 and 11 at most, so that it holds. */
  lemma WrittenBytes(h: Bytes)
    requires |h| >= HEADER_LEN
    ensures BytesHold(WithChecksum(h))
    ensures forall i :: 0 <= i < |h| && i != 10 && i != 11 ==> WithChecksum(h)[i] == h[i]
  {
    hide HeaderChecksum, BytesHold;
    WrittenIsAccepted(h);
    AcceptsIffBytesHold(WithChecksum(h));
  }

  /** A header from practice, with its checksum 0xB1E6. */
  lemma KnownHeader(h: Bytes)
    requires h == [0x45, 0, 0, 0x3C, 0x1C, 0x46, 0x40, 0, 0x40, 0x06, 0xB1, 0xE6, 0xAC, 0x10, 0x0A, 0x63, 0xAC, 0x10,
                   0x0A, 0x0C]
    ensures Accepts(h) && HeaderChecksum(h) == 0xB1E6
  {
    AcceptsIffBytesHold(h);
  }

  /** The historical check, with one complement too many. */
  predicate AcceptsWithExtraNot(h: Bytes)
    requires |h| >= HEADER_LEN
  {
    0xFFFF - HeaderChecksum(h) == WordAt(h, CHECKSUM_WORD)
  }

  /** The extra complement refuses every header the right check accepts; among headers the
      receiver's rule accepts, it lets through only the second spelling of zero. */
  lemma ExtraNotIsWrong(h: Bytes)
    requires |h| >= HEADER_LEN
    ensures Accepts(h) ==> !AcceptsWithExtraNot(h)
    ensures SumsToOnes(h) ==> (AcceptsWithExtraNot(h) <==> WordAt(h, CHECKSUM_WORD) == 0xFFFF && RestSum(h) != 0)
  {
    hide Sum, Fold, SetWord, WordAt;
    SumIsRestPlusField(h);
    FieldCompletes(RestSum(h), WordAt(h, CHECKSUM_WORD));
  }

  /** One such header: the other words sum to all ones, and so is the field. */
  lemma SecondZeroIsLetThrough(h: Bytes)
    requires h == [0x45, 0, 0xBA, 0xFF, 0, 0, 0, 0, 0, 0, 0xFF, 0xFF, 0, 0, 0, 0, 0, 0, 0, 0]
    ensures SumsToOnes(h) && AcceptsWithExtraNot(h) && !Accepts(h)
  {
    assert Sum(h, 1) == WordAt(h, 0) == 0x4500;
    assert Sum(h, 2) == Sum(h, 1) + WordAt(h, 1) == 0xFFFF;
    assert Sum(h, 4) == 0xFFFF;
    assert Sum(h, 6) == 0x1FFFE;
    assert Sum(h, 8) == 0x1FFFE;
    assert Sum(h, 10) == 0x1FFFE;
    ExtraNotIsWrong(h);
    SumIsRestPlusField(h);
  }
}
