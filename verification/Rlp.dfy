/** Recursive Length Prefix coding (Appendix B of the Ethereum Yellow Paper) of byte strings and of
    the four-field account record, with the decoder that inverts it. */
module Rlp {
  import opened Bytes

  /** The length prefix of a payload: `offset` is 0x80 for strings and 0xc0 for lists. Go slices
      are shorter than 2^64 bytes. */
  function Prefix(offset: int, n: nat): (p: seq<byte>)
    requires offset == 0x80 || offset == 0xc0
    requires n < TWO64
  {
    if n <= 55 then [offset + n]
    else LengthFits(n); [offset + 55 + |MinBE(n)|] + MinBE(n)
  }

  lemma LengthFits(n: nat)
    requires n < TWO64
    ensures |MinBE(n)| <= 8
    ensures n > 0 ==> |MinBE(n)| > 0
  {
    Pow256Eight();
    MinBELength(n, 8);
  }

  function EncodeString(s: seq<byte>): seq<byte>
    requires |s| < TWO64
  {
    if |s| == 1 && s[0] < 0x80 then s else Prefix(0x80, |s|) + s
  }

  function EncodeList(payload: seq<byte>): seq<byte>
    requires |payload| < TWO64
  {
    Prefix(0xc0, |payload|) + payload
  }

  // ----- the bytes -----

  /** Appendix B, byte by byte: a single byte below 128 stands for itself; up to 55 bytes follow one
      byte 128 + length; more follow 183 + w and the length in w big-endian bytes, the first not
      zero. */
  lemma StringBytes(s: seq<byte>)
    requires |s| < TWO64
    ensures |s| == 1 && s[0] < 128 ==> EncodeString(s) == s
    ensures |s| <= 55 && !(|s| == 1 && s[0] < 128) ==> EncodeString(s) == [128 + |s|] + s
    ensures |s| > 55 ==>
              exists len :: 1 <= |len| <= 8 && FromBE(len) == |s| && len[0] != 0 && EncodeString(s) == ([183 + |len|] + len) + s
  {
    if |s| > 55 {
      LengthBytes(|s|);
      assert EncodeString(s) == ([183 + |MinBE(|s|)|] + MinBE(|s|)) + s;
    }
  }

  /** Lists likewise, from 192 and 247. */
  lemma ListBytes(p: seq<byte>)
    requires |p| < TWO64
    ensures |p| <= 55 ==> EncodeList(p) == [192 + |p|] + p
    ensures |p| > 55 ==>
              exists len :: 1 <= |len| <= 8 && FromBE(len) == |p| && len[0] != 0 && EncodeList(p) == ([247 + |len|] + len) + p
  {
    if |p| > 55 {
      LengthBytes(|p|);
      assert EncodeList(p) == ([247 + |MinBE(|p|)|] + MinBE(|p|)) + p;
    }
  }

  lemma LengthBytes(n: nat)
    requires 0 < n < TWO64
    ensures 1 <= |MinBE(n)| <= 8 && FromBE(MinBE(n)) == n && MinBE(n)[0] != 0
  {
    LengthFits(n);
    FromBEOfMinBE(n);
    MinBEIsMinimal(n);
  }

  // ----- decoding -----

  /** Reads a prefix of the given kind: the payload length and the bytes after the prefix. */
  function SplitPrefix(offset: int, s: seq<byte>): Option<(nat, seq<byte>)>
    requires offset == 0x80 || offset == 0xc0
  {
    if s == [] || s[0] < offset || s[0] >= offset + 64 then None
    else if s[0] <= offset + 55 then Some((s[0] - offset, s[1..]))
    else
      var w := s[0] - offset - 55;
      if |s| < 1 + w then None else Some((FromBE(s[1..1 + w]), s[1 + w..]))
  }

  /** Splits a string off the front of the input. */
  function SplitString(s: seq<byte>): Option<(seq<byte>, seq<byte>)> {
    if s != [] && s[0] < 0x80 then Some((s[..1], s[1..]))
    else
      var p := SplitPrefix(0x80, s);
      if p.None? || |p.value.1| < p.value.0 then None
      else Some((p.value.1[..p.value.0], p.value.1[p.value.0..]))
  }

  /** The payload of an input that is exactly one list. */
  function ListPayload(s: seq<byte>): Option<seq<byte>> {
    var p := SplitPrefix(0xc0, s);
    if p.None? || |p.value.1| != p.value.0 then None else Some(p.value.1)
  }

  lemma CutHead(b: byte, l: seq<byte>, rest: seq<byte>)
    ensures var s := ([b] + l) + rest; s[0] == b && s[1..1 + |l|] == l && s[1 + |l|..] == rest
  {
  }

  lemma SplitPrefixOfPrefix(offset: int, n: nat, rest: seq<byte>)
    requires offset == 0x80 || offset == 0xc0
    requires n < TWO64
    ensures SplitPrefix(offset, Prefix(offset, n) + rest) == Some((n, rest))
  {
    if n <= 55 {
      CutHead(offset + n, [], rest);
      assert [offset + n] + [] == [offset + n];
    } else {
      LengthFits(n);
      CutHead(offset + 55 + |MinBE(n)|, MinBE(n), rest);
      FromBEOfMinBE(n);
    }
  }

  /** Decoding inverts encoding, whatever follows: RLP strings are prefix-free. */
  lemma SplitStringOfEncode(s: seq<byte>, rest: seq<byte>)
    requires |s| < TWO64
    ensures SplitString(EncodeString(s) + rest) == Some((s, rest))
  {
    var e := EncodeString(s) + rest;
    if |s| == 1 && s[0] < 0x80 {
      assert e[..1] == s && e[1..] == rest;
    } else {
      assert e == Prefix(0x80, |s|) + (s + rest);
      SplitPrefixOfPrefix(0x80, |s|, s + rest);
      assert e[0] >= 0x80 by { LengthFits(|s|); }
      assert (s + rest)[..|s|] == s && (s + rest)[|s|..] == rest;
    }
  }

  lemma ListPayloadOfEncode(payload: seq<byte>)
    requires |payload| < TWO64
    ensures ListPayload(EncodeList(payload)) == Some(payload)
  {
    SplitPrefixOfPrefix(0xc0, |payload|, payload);
  }

  lemma EncodeStringInjective(a: seq<byte>, b: seq<byte>)
    requires |a| < TWO64 && |b| < TWO64 && EncodeString(a) == EncodeString(b)
    ensures a == b
  {
    SplitStringOfEncode(a, []);
    SplitStringOfEncode(b, []);
  }

  lemma EncodeStringLength(s: seq<byte>)
    requires |s| < TWO64
    ensures 0 < |EncodeString(s)| <= |s| + 9
  {
    LengthFits(|s|);
  }

  // ----- accounts -----

  /** An account as eth_getProof reports it; the balance is an unsigned 256-bit integer. */
  datatype Account = Account(nonce: u64, balance: nat, storageHash: Hash, codeHash: Hash)

  ghost predicate AccountFits(a: Account) { a.balance < Pow256(32) }

  lemma AccountFieldsFit(a: Account)
    requires AccountFits(a)
    ensures |MinBE(a.nonce)| <= 8 && |MinBE(a.balance)| <= 32
  {
    Pow256Eight();
    MinBELength(a.nonce, 8);
    MinBELength(a.balance, 32);
  }

  function AccountPayload(a: Account): (p: seq<byte>)
    requires AccountFits(a)
    ensures |p| <= 200
  {
    AccountFieldsFit(a);
    EncodeStringLength(MinBE(a.nonce));
    EncodeStringLength(MinBE(a.balance));
    EncodeStringLength(a.storageHash);
    EncodeStringLength(a.codeHash);
    EncodeString(MinBE(a.nonce)) + (EncodeString(MinBE(a.balance)) + (EncodeString(a.storageHash) + EncodeString(a.codeHash)))
  }

  function EncodeAccount(a: Account): seq<byte>
    requires AccountFits(a)
  {
    EncodeList(AccountPayload(a))
  }

  /** The payload of an account: the nonce and the balance as integers without leading zeros, then the
      storage hash and the code hash, each after the byte 160. */
  lemma AccountBytes(a: Account)
    requires AccountFits(a)
    ensures EncodeAccount(a) == EncodeList(AccountPayload(a))
    ensures exists nonce, balance :: IsInteger(nonce, a.nonce) && IsInteger(balance, a.balance) && |nonce| <= 32 && |balance| <= 32
              && AccountPayload(a) == EncodeString(nonce) + (EncodeString(balance) + (([160] + a.storageHash) + ([160] + a.codeHash)))
  {
    AccountFieldsFit(a);
    IntegerBytes(a.nonce);
    IntegerBytes(a.balance);
    StringBytes(a.storageHash);
    StringBytes(a.codeHash);
  }

  /** A number in big-endian bytes without leading zeros; zero is the empty string. */
  ghost predicate IsInteger(s: seq<byte>, n: nat) {
    FromBE(s) == n && (s == [] || s[0] != 0)
  }

  lemma IntegerBytes(n: nat)
    ensures IsInteger(MinBE(n), n)
  {
    FromBEOfMinBE(n);
    if n > 0 { MinBEIsMinimal(n); }
  }

  /** The account encoding determines every field of the account. */
  lemma EncodeAccountInjective(a: Account, b: Account)
    requires AccountFits(a) && AccountFits(b) && EncodeAccount(a) == EncodeAccount(b)
    ensures a == b
  {
    ListPayloadOfEncode(AccountPayload(a));
    ListPayloadOfEncode(AccountPayload(b));
    AccountFieldsFit(a);
    AccountFieldsFit(b);
    PayloadInjective(MinBE(a.nonce), MinBE(a.balance), a.storageHash, a.codeHash,
                     MinBE(b.nonce), MinBE(b.balance), b.storageHash, b.codeHash);
    FromBEOfMinBE(a.nonce);
    FromBEOfMinBE(b.nonce);
    FromBEOfMinBE(a.balance);
    FromBEOfMinBE(b.balance);
  }

  lemma PayloadInjective(a1: seq<byte>, a2: seq<byte>, a3: seq<byte>, a4: seq<byte>,
                         b1: seq<byte>, b2: seq<byte>, b3: seq<byte>, b4: seq<byte>)
    requires |a1| <= 32 && |a2| <= 32 && |a3| <= 32 && |a4| <= 32
    requires |b1| <= 32 && |b2| <= 32 && |b3| <= 32 && |b4| <= 32
    requires EncodeString(a1) + (EncodeString(a2) + (EncodeString(a3) + EncodeString(a4))) ==
             EncodeString(b1) + (EncodeString(b2) + (EncodeString(b3) + EncodeString(b4)))
    ensures a1 == b1 && a2 == b2 && a3 == b3 && a4 == b4
  {
    SplitStringOfEncode(a1, EncodeString(a2) + (EncodeString(a3) + EncodeString(a4)));
    SplitStringOfEncode(b1, EncodeString(b2) + (EncodeString(b3) + EncodeString(b4)));
    SplitStringOfEncode(a2, EncodeString(a3) + EncodeString(a4));
    SplitStringOfEncode(b2, EncodeString(b3) + EncodeString(b4));
    SplitStringOfEncode(a3, EncodeString(a4));
    SplitStringOfEncode(b3, EncodeString(b4));
    EncodeStringInjective(a4, b4);
  }
}
