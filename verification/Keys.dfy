/** The key space of a Groth16 client store: ICS-24 decimal keys for consensus states and their
    metadata, and the big-endian index used for ordered iteration. */
module Keys {
  import opened Bytes

  datatype Height = Height(revision: u64, height: u64)

  /** Revision first, then height: the order of IBC heights. */
  predicate Before(a: Height, b: Height) {
    a.revision < b.revision || (a.revision == b.revision && a.height < b.height)
  }

  predicate AsciiOnly(s: string) {
    forall i :: 0 <= i < |s| ==> s[i] < 128 as char
  }

  function Ascii(s: string): (r: seq<byte>)
    requires AsciiOnly(s)
  {
    seq(|s|, i requires 0 <= i < |s| => s[i] as int)
  }

  const DASH: byte := 45
  const SLASH: byte := 47

  const CLIENT_STATE: seq<byte> := Ascii("clientState")
  const CONSENSUS_PREFIX: seq<byte> := Ascii("consensusStates/")
  const ITERATION_PREFIX: seq<byte> := Ascii("iterateConsensusStates")
  const PROCESSED_TIME: seq<byte> := Ascii("/processedTime")
  const PROCESSED_HEIGHT: seq<byte> := Ascii("/processedHeight")

  // ----- decimal -----

  /** Decimal digits of n, as Go's %d and strconv.FormatUint print it. */
  function Decimal(n: nat): (s: seq<byte>)
    ensures s != []
    ensures forall b :: b in s ==> 48 <= b <= 57
  {
    if n < 10 then [48 + n] else Decimal(n / 10) + [48 + n % 10]
  }

  /** strconv.ParseUint on a string of digits. */
  function ParseDecimal(s: seq<byte>): int {
    if s == [] then 0 else ParseDecimal(s[..|s| - 1]) * 10 + s[|s| - 1] - 48
  }

  lemma {:induction false} ParseOfDecimal(n: nat)
    ensures ParseDecimal(Decimal(n)) == n
  {
    if n < 10 {
      assert ParseDecimal([]) == 0;
    } else {
      ParseOfDecimal(n / 10);
      assert Decimal(n)[..|Decimal(n)| - 1] == Decimal(n / 10);
    }
  }

  function HeightString(h: Height): seq<byte> {
    Decimal(h.revision) + [DASH] + Decimal(h.height)
  }

  /** strconv.ParseUint(s, 10, 64). */
  function ParseUint(s: seq<byte>): Option<u64> {
    if s == [] || exists i :: 0 <= i < |s| && !(48 <= s[i] <= 57) then None
    else if 0 <= ParseDecimal(s) < TWO64 then Some(ParseDecimal(s)) else None
  }

  /** The position of the first dash, or the length. */
  function FirstDash(s: seq<byte>): (i: nat)
    ensures i <= |s| && DASH !in s[..i] && (i < |s| ==> s[i] == DASH)
  {
    if s == [] || s[0] == DASH then 0
    else
      assert forall k: nat :: k < |s| ==> s[..k + 1] == [s[0]] + s[1..][..k];
      1 + FirstDash(s[1..])
  }

  /** clienttypes.ParseHeight: revision and height around one dash. */
  function ParseHeight(s: seq<byte>): Option<Height> {
    var i := FirstDash(s);
    if i == |s| then None
    else
      var revision, height := ParseUint(s[..i]), ParseUint(s[i + 1..]);
      if revision.None? || height.None? then None else Some(Height(revision.value, height.value))
  }

  lemma ParseUintOfDecimal(n: u64)
    ensures ParseUint(Decimal(n)) == Some(n)
  {
    ParseOfDecimal(n);
    forall i | 0 <= i < |Decimal(n)| ensures 48 <= Decimal(n)[i] <= 57 { assert Decimal(n)[i] in Decimal(n); }
  }

  lemma DashAfterRevision(h: Height)
    ensures FirstDash(HeightString(h)) == |Decimal(h.revision)|
  {
    var s, i := HeightString(h), FirstDash(HeightString(h));
    var tail := [DASH] + Decimal(h.height);
    assert s == Decimal(h.revision) + tail && s == s[..i] + s[i..];
    CutUnique(DASH, s[..i], s[i..], Decimal(h.revision), tail);
  }

  /** The height string is the revision, a dash and the height. */
  lemma ParseOfHeightString(h: Height)
    ensures ParseHeight(HeightString(h)) == Some(h)
  {
    var s, r := HeightString(h), |Decimal(h.revision)|;
    DashAfterRevision(h);
    assert s[..r] == Decimal(h.revision) && s[r + 1..] == Decimal(h.height);
    ParseUintOfDecimal(h.revision);
    ParseUintOfDecimal(h.height);
  }

  // ----- keys -----

  function ClientStateKey(): seq<byte> { CLIENT_STATE }

  function ConsensusStateKey(h: Height): seq<byte> { CONSENSUS_PREFIX + HeightString(h) }

  function ProcessedTimeKey(h: Height): seq<byte> { ConsensusStateKey(h) + PROCESSED_TIME }

  function ProcessedHeightKey(h: Height): seq<byte> { ConsensusStateKey(h) + PROCESSED_HEIGHT }

  function BigEndianHeightBytes(h: Height): (s: seq<byte>)
    ensures |s| == 16
  {
    BE8(h.revision) + BE8(h.height)
  }

  function IterationKey(h: Height): seq<byte> { ITERATION_PREFIX + BigEndianHeightBytes(h) }

  /** A well-formed iteration key: the prefix and sixteen more bytes. */
  predicate IterationShaped(k: seq<byte>) {
    ITERATION_PREFIX <= k && |k| == |ITERATION_PREFIX| + 16
  }

  function HeightFromIterationKey(k: seq<byte>): Height
    requires IterationShaped(k)
  {
    var bytes := k[|ITERATION_PREFIX|..];
    EightBytesFit(bytes[0..8]);
    EightBytesFit(bytes[8..]);
    Height(FromBE(bytes[0..8]), FromBE(bytes[8..]))
  }

  /** The formats, at one height. */
  lemma ConsensusKeyFormat()
    ensures ClientStateKey() == Ascii("clientState")
    ensures ConsensusStateKey(Height(1, 42)) == Ascii("consensusStates/1-42")
  {
    DecimalExamples();
    assert HeightString(Height(1, 42)) == [49] + [DASH] + [52, 50];
  }

  lemma MetadataKeyFormats()
    ensures ProcessedTimeKey(Height(1, 42)) == Ascii("consensusStates/1-42") + Ascii("/processedTime")
    ensures ProcessedHeightKey(Height(1, 42)) == Ascii("consensusStates/1-42") + Ascii("/processedHeight")
  {
    ConsensusKeyFormat();
  }

  lemma IterationKeyFormat()
    ensures IterationKey(Height(1, 42)) == Ascii("iterateConsensusStates") + [0, 0, 0, 0, 0, 0, 0, 1, 0, 0, 0, 0, 0, 0, 0, 42]
  {
    forall i | 0 <= i < 8
      ensures BE8(1)[i] == (if i == 7 then 1 else 0) && BE8(42)[i] == (if i == 7 then 42 else 0)
    {
      SmallBE(1, 8, i);
      SmallBE(42, 8, i);
    }
    assert BigEndianHeightBytes(Height(1, 42)) == [0, 0, 0, 0, 0, 0, 0, 1, 0, 0, 0, 0, 0, 0, 0, 42];
  }

  lemma DecimalExamples()
    ensures Decimal(1) == [49] && Decimal(42) == [52, 50]
  {
    assert Decimal(4) == [52];
  }

  lemma {:induction false} SmallBE(n: byte, w: nat, i: nat)
    requires i < w
    ensures BE(n, w)[i] == if i == w - 1 then n else 0
    decreases w
  {
    if i < w - 1 { SmallBE(0, w - 1, i); }
  }

  // ----- the key space as one injective family -----

  datatype Slot =
    | ClientSlot
    | ConsensusSlot(h: Height)
    | ProcessedTimeSlot(h: Height)
    | ProcessedHeightSlot(h: Height)
    | IterationSlot(h: Height)

  function KeyOf(s: Slot): seq<byte> {
    match s
    case ClientSlot => ClientStateKey()
    case ConsensusSlot(h) => ConsensusStateKey(h)
    case ProcessedTimeSlot(h) => ProcessedTimeKey(h)
    case ProcessedHeightSlot(h) => ProcessedHeightKey(h)
    case IterationSlot(h) => IterationKey(h)
  }

  /** A string is cut in one way only at the first occurrence of a separator. */
  lemma CutUnique(c: byte, a: seq<byte>, x: seq<byte>, b: seq<byte>, y: seq<byte>)
    requires c !in a && c !in b
    requires (x == [] || x[0] == c) && (y == [] || y[0] == c)
    requires a + x == b + y
    ensures a == b && x == y
  {
    var s := a + x;
    assert forall k :: 0 <= k < |a| ==> s[k] == a[k];
    assert forall k :: 0 <= k < |b| ==> s[k] == b[k];
    assert x != [] ==> s[|a|] == c;
    assert y != [] ==> s[|b|] == c;
    assert |a| == |b|;
    assert a == s[..|a|] && b == s[..|a|];
    assert x == s[|a|..] && y == s[|a|..];
  }

  lemma HeightStringInjective(h: Height, k: Height)
    requires HeightString(h) == HeightString(k)
    ensures h == k
  {
    var x, y := [DASH] + Decimal(h.height), [DASH] + Decimal(k.height);
    assert HeightString(h) == Decimal(h.revision) + x && HeightString(k) == Decimal(k.revision) + y;
    CutUnique(DASH, Decimal(h.revision), x, Decimal(k.revision), y);
    assert Decimal(h.height) == x[1..] && Decimal(k.height) == y[1..];
    ParseOfDecimal(h.revision);
    ParseOfDecimal(k.revision);
    ParseOfDecimal(h.height);
    ParseOfDecimal(k.height);
  }

  lemma IterationKeyInverse(h: Height)
    ensures IterationShaped(IterationKey(h))
    ensures HeightFromIterationKey(IterationKey(h)) == h
  {
    var k := IterationKey(h);
    assert k[|ITERATION_PREFIX|..][0..8] == BE8(h.revision);
    assert k[|ITERATION_PREFIX|..][8..] == BE8(h.height);
    BE8RoundTrip(h.revision);
    BE8RoundTrip(h.height);
  }

  /** Lexicographic order of iteration keys is height order. */
  lemma IterationKeyOrder(h: Height, k: Height)
    ensures LexLt(IterationKey(h), IterationKey(k)) <==> Before(h, k)
    ensures LexLt(BigEndianHeightBytes(h), BigEndianHeightBytes(k)) <==> Before(h, k)
  {
    LexConcat(ITERATION_PREFIX, BigEndianHeightBytes(h), ITERATION_PREFIX, BigEndianHeightBytes(k));
    LexIrreflexive(ITERATION_PREFIX);
    LexConcat(BE8(h.revision), BE8(h.height), BE8(k.revision), BE8(k.height));
    BE8Order(h.revision, k.revision);
    BE8Order(h.height, k.height);
  }

  /** The part of a consensus or metadata key after the shared prefix. */
  function Suffix(s: Slot): seq<byte> {
    match s
    case ProcessedTimeSlot(_) => PROCESSED_TIME
    case ProcessedHeightSlot(_) => PROCESSED_HEIGHT
    case _ => []
  }

  predicate UnderConsensusPrefix(s: Slot) {
    s.ConsensusSlot? || s.ProcessedTimeSlot? || s.ProcessedHeightSlot?
  }

  lemma ConsensusFamilyShape(s: Slot)
    requires UnderConsensusPrefix(s)
    ensures KeyOf(s) == CONSENSUS_PREFIX + (HeightString(s.h) + Suffix(s))
    ensures SLASH !in HeightString(s.h)
    ensures Suffix(s) == [] || Suffix(s)[0] == SLASH
    ensures |Suffix(s)| == if s.ConsensusSlot? then 0 else if s.ProcessedTimeSlot? then 14 else 16
  {
    ConcatAssociative(CONSENSUS_PREFIX, HeightString(s.h), Suffix(s));
    assert s.ConsensusSlot? ==> HeightString(s.h) + [] == HeightString(s.h);
  }

  lemma ConsensusFamilyInjective(a: Slot, b: Slot)
    requires UnderConsensusPrefix(a) && UnderConsensusPrefix(b)
    requires KeyOf(a) == KeyOf(b)
    ensures a == b
  {
    ConsensusFamilyShape(a);
    ConsensusFamilyShape(b);
    CancelPrefix(CONSENSUS_PREFIX, HeightString(a.h) + Suffix(a), HeightString(b.h) + Suffix(b));
    CutUnique(SLASH, HeightString(a.h), Suffix(a), HeightString(b.h), Suffix(b));
    HeightStringInjective(a.h, b.h);
  }

  lemma CancelPrefix(p: seq<byte>, x: seq<byte>, y: seq<byte>)
    requires p + x == p + y
    ensures x == y
  {
    assert x == (p + x)[|p|..] && y == (p + y)[|p|..];
  }

  /** No two slots share a key: the five families are injective and pairwise disjoint. */
  lemma KeySpaceInjective(a: Slot, b: Slot)
    requires KeyOf(a) == KeyOf(b)
    ensures a == b
  {
    assert CLIENT_STATE[0] == 99 && CLIENT_STATE[1] == 108;
    assert CONSENSUS_PREFIX[0] == 99 && CONSENSUS_PREFIX[1] == 111;
    assert ITERATION_PREFIX[0] == 105;
    if UnderConsensusPrefix(a) { assert KeyOf(a)[0] == 99 && KeyOf(a)[1] == 111; }
    if UnderConsensusPrefix(b) { assert KeyOf(b)[0] == 99 && KeyOf(b)[1] == 111; }
    if UnderConsensusPrefix(a) && UnderConsensusPrefix(b) {
      ConsensusFamilyInjective(a, b);
    } else if a.IterationSlot? && b.IterationSlot? {
      IterationKeyInverse(a.h);
      IterationKeyInverse(b.h);
    }
  }
}
