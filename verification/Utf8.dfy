/**
 Decoding bytes as UTF-8 the way `Buffer.toString` does: each maximal part of an ill-formed sequence becomes
 one U+FFFD, as in the UTF-8 decoder of the WHATWG Encoding Standard.
 */
module Utf8 {
  import opened Bytes
  import opened Sequences

  const REPLACEMENT := '\U{FFFD}'

  predicate IsLead(b: Byte) {
    b < 0x80 || 0xC2 <= b <= 0xF4
  }

  /** The number of continuation bytes that this lead byte asks for. */
  function Needs(lead: Byte): nat {
    if lead < 0x80 then 0 else if lead < 0xE0 then 1 else if lead < 0xF0 then 2 else 3
  }

  /** May `b` stand at position `k` after this lead byte? The first position excludes overlong forms and surrogates. */
  predicate Continues(lead: Byte, k: nat, b: Byte) {
    && 0x80 <= b < 0xC0
    && (k == 1 ==>
          (lead == 0xE0 ==> 0xA0 <= b) && (lead == 0xED ==> b < 0xA0) && (lead == 0xF0 ==> 0x90 <= b)
          && (lead == 0xF4 ==> b < 0x90))
  }

  /** How many bytes at the start belong together, counted from the `k`-th on. */
  function WellFormed(bytes: seq<Byte>, k: nat): (n: nat)
    requires 0 < k <= |bytes| && k <= 1 + Needs(bytes[0])
    ensures k <= n <= |bytes| && n <= 1 + Needs(bytes[0])
    ensures forall i :: k <= i < n ==> Continues(bytes[0], i, bytes[i])
    decreases |bytes| - k
  {
    if k == |bytes| || k > Needs(bytes[0]) || !Continues(bytes[0], k, bytes[k]) then k
    else WellFormed(bytes, k + 1)
  }

  /** The bytes that make up the first character, or the first replacement. */
  function Advance(bytes: seq<Byte>): (n: nat)
    requires bytes != []
    ensures 0 < n <= |bytes|
  {
    if IsLead(bytes[0]) then WellFormed(bytes, 1) else 1
  }

  predicate IsComplete(bytes: seq<Byte>)
    requires bytes != []
  {
    IsLead(bytes[0]) && Advance(bytes) == 1 + Needs(bytes[0])
  }

  /** The six bits that a continuation byte contributes. */
  function Low(b: Byte): int {
    b as int % 64
  }

  function First(bytes: seq<Byte>): char
    requires bytes != []
  {
    if !IsComplete(bytes) then REPLACEMENT
    else
      var lead := bytes[0] as int;
      match Needs(bytes[0])
      case 0 => lead as char
      case 1 => ((lead - 0xC0) * 64 + Low(bytes[1])) as char
      case 2 => ((lead - 0xE0) * 4096 + Low(bytes[1]) * 64 + Low(bytes[2])) as char
      case _ => ((lead - 0xF0) * 262144 + Low(bytes[1]) * 4096 + Low(bytes[2]) * 64 + Low(bytes[3])) as char
  }

  function Decode(bytes: seq<Byte>): string {
    if bytes == [] then "" else [First(bytes)] + Decode(bytes[Advance(bytes)..])
  }

  // --- Cutting the stream ---

  /** All of these bytes belong to one character, and more are missing. */
  predicate Unfinished(bytes: seq<Byte>) {
    bytes != [] && IsLead(bytes[0]) && Advance(bytes) == |bytes| <= Needs(bytes[0])
  }

  /** The bytes end inside a character. */
  predicate EndsInside(bytes: seq<Byte>) {
    Unfinished(bytes) || (bytes != [] && EndsInside(bytes[Advance(bytes)..]))
  }

  lemma {:induction false} WellFormedLonger(a: seq<Byte>, b: seq<Byte>, k: nat)
    requires 0 < k <= |a| && k <= 1 + Needs(a[0])
    requires WellFormed(a, k) < |a| || |a| > Needs(a[0])
    ensures WellFormed(a + b, k) == WellFormed(a, k)
    decreases |a| - k
  {
    if k < |a| && k <= Needs(a[0]) && Continues(a[0], k, a[k]) {
      WellFormedLonger(a, b, k + 1);
    }
  }

  lemma FirstLonger(a: seq<Byte>, b: seq<Byte>)
    requires a != [] && !Unfinished(a)
    ensures Advance(a + b) == Advance(a) && First(a + b) == First(a)
    ensures (a + b)[Advance(a)..] == a[Advance(a)..] + b
  {
    assert forall i :: 0 <= i < |a| ==> (a + b)[i] == a[i];
    if IsLead(a[0]) {
      WellFormedLonger(a, b, 1);
    }
    assert IsComplete(a + b) == IsComplete(a);
  }

  /** A cut that does not fall inside a character cannot be seen in the text. */
  lemma {:induction false} DecodeResumes(a: seq<Byte>, b: seq<Byte>)
    requires !EndsInside(a)
    ensures Decode(a + b) == Decode(a) + Decode(b) && (EndsInside(a + b) <==> EndsInside(b))
    decreases |a|
  {
    if a == [] {
      assert a + b == b;
    } else {
      var tail := a[Advance(a)..];
      FirstLonger(a, b);
      DecodeResumes(tail, b);
      assert [First(a)] + (Decode(tail) + Decode(b)) == [First(a)] + Decode(tail) + Decode(b);
      assert Unfinished(a + b) ==> |b| == 0;
    }
  }

  // --- What well-formed text decodes to ---

  /** The UTF-8 encoding of one character. */
  function Encode(c: char): seq<Byte> {
    var n := c as int;
    if n < 0x80 then [n]
    else if n < 0x800 then [0xC0 + n / 64, 0x80 + n % 64]
    else if n < 0x10000 then [0xE0 + n / 4096, 0x80 + n / 64 % 64, 0x80 + n % 64]
    else [0xF0 + n / 262144, 0x80 + n / 4096 % 64, 0x80 + n / 64 % 64, 0x80 + n % 64]
  }

  /** The groups of six bits that a character's number is made of. */
  lemma SixBitGroups(n: nat)
    ensures n == n / 64 * 64 + n % 64
    ensures n / 64 == n / 4096 * 64 + n / 64 % 64
    ensures n / 4096 == n / 262144 * 64 + n / 4096 % 64
  {
    assert n / 4096 == n / 64 / 64;
    assert n / 262144 == n / 4096 / 64;
  }

  predicate IsOneCharacter(bytes: seq<Byte>, c: char) {
    bytes != [] && IsComplete(bytes) && |bytes| == 1 + Needs(bytes[0]) && First(bytes) == c
  }

  lemma TwoBytes(c: char)
    requires 0x80 <= c as int < 0x800
    ensures IsOneCharacter(Encode(c), c)
  {
    SixBitGroups(c as int);
    AllBelongTogether(Encode(c), 1);
  }

  lemma ThreeBytes(c: char)
    requires 0x800 <= c as int < 0x10000
    ensures IsOneCharacter(Encode(c), c)
  {
    var n := c as int;
    SixBitGroups(n);
    assert !(0xD800 <= n < 0xE000);
    var bytes := Encode(c);
    assert Continues(bytes[0], 1, bytes[1]) && Continues(bytes[0], 2, bytes[2]);
    AllBelongTogether(bytes, 1);
  }

  lemma FourBytes(c: char)
    requires 0x10000 <= c as int
    ensures IsOneCharacter(Encode(c), c)
  {
    var n := c as int;
    SixBitGroups(n);
    assert n < 0x110000;
    var bytes := Encode(c);
    assert Continues(bytes[0], 1, bytes[1]) && Continues(bytes[0], 2, bytes[2]) && Continues(bytes[0], 3, bytes[3]);
    AllBelongTogether(bytes, 1);
  }

  lemma EncodedIsOneCharacter(c: char)
    ensures IsOneCharacter(Encode(c), c)
  {
    if 0x80 <= c as int < 0x800 {
      TwoBytes(c);
    } else if 0x800 <= c as int < 0x10000 {
      ThreeBytes(c);
    } else if 0x10000 <= c as int {
      FourBytes(c);
    }
  }

  predicate DecodesTo(bytes: seq<Byte>, s: string) {
    Decode(bytes) == s && !EndsInside(bytes)
  }

  lemma OneMoreCharacter(bytes: seq<Byte>, s: string, c: char)
    requires DecodesTo(bytes, s)
    ensures DecodesTo(bytes + Encode(c), s + [c])
  {
    DecodedCharacter(c);
    DecodeResumes(bytes, Encode(c));
  }

  /** Text is decoded back from its encoding, character by character. */
  lemma {:induction false} DecodeEncoded(s: string)
    ensures DecodesTo(FlatMap(Encode, s), s)
  {
    if |s| == 0 {
      NothingToDecode(FlatMap(Encode, s));
    } else {
      var front, last := s[..|s| - 1], s[|s| - 1];
      assert s == front + [last];
      DecodeEncoded(front);
      OneMoreCharacter(FlatMap(Encode, front), front, last);
      FlatMapAppend(Encode, front, last);
    }
  }

  lemma NothingToDecode(bytes: seq<Byte>)
    requires |bytes| == 0
    ensures |Decode(bytes)| == 0 && !EndsInside(bytes)
  {
  }

  lemma DecodedCharacter(c: char)
    ensures Decode(Encode(c)) == [c] && !EndsInside(Encode(c))
  {
    EncodedIsOneCharacter(c);
    var bytes := Encode(c);
    NothingToDecode(bytes[|bytes|..]);
    assert Decode(bytes) == [First(bytes)] + Decode(bytes[|bytes|..]);
  }

  /** A byte that may stand at position `k` after this lead byte. */
  function Filler(lead: Byte, k: nat): (b: Byte)
    requires IsLead(lead) && lead >= 0x80
    ensures Continues(lead, k, b) && !IsLead(b)
  {
    if k == 1 && lead == 0xE0 then 0xA0 else if k == 1 && lead == 0xF0 then 0x90 else 0x80
  }

  /** The rest of a character from its `k`-th byte on. */
  function Rest(lead: Byte, k: nat): (rest: seq<Byte>)
    requires IsLead(lead) && lead >= 0x80 && 0 < k <= 1 + Needs(lead)
    ensures |rest| == 1 + Needs(lead) - k
    ensures forall i :: 0 <= i < |rest| ==> Continues(lead, k + i, rest[i]) && !IsLead(rest[i])
    decreases Needs(lead) - k + 1
  {
    if k > Needs(lead) then [] else [Filler(lead, k)] + Rest(lead, k + 1)
  }

  function Missing(bytes: seq<Byte>): seq<Byte>
    requires Unfinished(bytes)
  {
    Rest(bytes[0], |bytes|)
  }

  lemma {:induction false} AllBelongTogether(bytes: seq<Byte>, k: nat)
    requires 0 < k <= |bytes| == 1 + Needs(bytes[0])
    requires forall i :: k <= i < |bytes| ==> Continues(bytes[0], i, bytes[i])
    ensures WellFormed(bytes, k) == |bytes|
    decreases |bytes| - k
  {
    if k < |bytes| {
      AllBelongTogether(bytes, k + 1);
    }
  }

  lemma {:induction false} StrayBytes(bytes: seq<Byte>)
    requires forall i :: 0 <= i < |bytes| ==> !IsLead(bytes[i])
    ensures |Decode(bytes)| == |bytes| && forall i :: 0 <= i < |bytes| ==> Decode(bytes)[i] == REPLACEMENT
  {
    if bytes != [] {
      StrayBytes(bytes[1..]);
    }
  }

  /** Cut inside a character, the text has more characters than the stream: each part is replaced on its own. */
  lemma CutCharacter(a: seq<Byte>)
    requires Unfinished(a)
    ensures |Decode(a + Missing(a))| == 1 && |Decode(a) + Decode(Missing(a))| > 1
  {
    var rest := Missing(a);
    var whole := a + rest;
    forall i | 1 <= i < |whole|
      ensures Continues(whole[0], i, whole[i])
    {
      if i >= |a| {
        assert whole[i] == rest[i - |a|];
      }
    }
    AllBelongTogether(whole, 1);
    assert whole[|whole|..] == [] && a[|a|..] == [];
    assert |Decode(a)| == 1;
    StrayBytes(rest);
  }

  /** So what comes after a cut reads the same in every case if and only if the cut is not inside a character. */
  lemma {:induction false} CutIsInvisibleIff(a: seq<Byte>)
    ensures (forall b :: Decode(a + b) == Decode(a) + Decode(b)) <==> !EndsInside(a)
    decreases |a|
  {
    if !EndsInside(a) {
      forall b
        ensures Decode(a + b) == Decode(a) + Decode(b)
      {
        DecodeResumes(a, b);
      }
    } else {
      var b := Completion(a);
      assert Decode(a + b) != Decode(a) + Decode(b);
    }
  }

  lemma {:induction false} Completion(a: seq<Byte>) returns (b: seq<Byte>)
    requires EndsInside(a)
    ensures |Decode(a + b)| < |Decode(a) + Decode(b)|
    decreases |a|
  {
    if Unfinished(a) {
      b := Missing(a);
      CutCharacter(a);
    } else {
      b := Completion(a[Advance(a)..]);
      FirstLonger(a, b);
    }
  }

  /** Chunks that each end between characters decode one by one to the text of the whole stream. */
  lemma {:induction false} ChunksDecodeTogether(chunks: seq<seq<Byte>>)
    requires forall i :: 0 <= i < |chunks| ==> !EndsInside(chunks[i])
    ensures Flatten(Map(Decode, chunks)) == Decode(Flatten(chunks)) && !EndsInside(Flatten(chunks))
  {
    if chunks != [] {
      var front, last := chunks[..|chunks| - 1], chunks[|chunks| - 1];
      ChunksDecodeTogether(front);
      DecodeResumes(Flatten(front), last);
      FlattenAppend(Map(Decode, front), Decode(last));
    }
  }

  /** An e with an acute accent, cut in two, arrives as two replacements. */
  lemma CutAccent()
    ensures Decode([0xC3, 0xA9]) == "\U{E9}"
    ensures Decode([0xC3]) + Decode([0xA9]) == [REPLACEMENT, REPLACEMENT]
  {
    var whole: seq<Byte>, first: seq<Byte>, second: seq<Byte> := [0xC3, 0xA9], [0xC3], [0xA9];
    AllBelongTogether(whole, 1);
    assert whole[2..] == [] && first[1..] == [] && second[1..] == [];
    assert Decode(whole) == [First(whole)] && Decode(first) == [First(first)] && Decode(second) == [First(second)];
  }
}
