/** Unpadded base64url: section 5 of RFC 4648 with the padding left out, as `base64.RawURLEncoding` has it. */
module Base64 {
  import opened Results
  import opened Slices

  type Byte = x: int | 0 <= x < 256
  type Bytes = seq<Byte>

  /** Six bits. */
  type Sextet = x: int | 0 <= x < 64

  // ----- The alphabet -----

  /** A-Z, a-z, 0-9, "-" and "_". */
  function Symbol(v: Sextet): Byte {
    if v < 26 then 65 + v else if v < 52 then 97 + (v - 26) else if v < 62 then 48 + (v - 52)
    else if v == 62 then 45 else 95
  }

  predicate IsSymbol(c: Byte) {
    65 <= c <= 90 || 97 <= c <= 122 || 48 <= c <= 57 || c == 45 || c == 95
  }

  function Digit(c: Byte): Sextet
    requires IsSymbol(c)
  {
    if 65 <= c <= 90 then c - 65
    else if 97 <= c <= 122 then c - 97 + 26
    else if 48 <= c <= 57 then c - 48 + 52
    else if c == 45 then 62
    else 63
  }

  predicate AllSymbols(s: Bytes) {
    forall i :: 0 <= i < |s| ==> IsSymbol(s[i])
  }

  function Symbols(v: seq<Sextet>): (s: Bytes)
    ensures |s| == |v| && AllSymbols(s) && forall i :: 0 <= i < |v| ==> Digit(s[i]) == v[i]
  {
    seq(|v|, i requires 0 <= i < |v| => Symbol(v[i]))
  }

  function Digits(s: Bytes): (v: seq<Sextet>)
    requires AllSymbols(s)
    ensures |v| == |s| && forall i :: 0 <= i < |s| ==> v[i] == Digit(s[i])
  {
    seq(|s|, i requires 0 <= i < |s| => Digit(s[i]))
  }

  // ----- Bytes and sextets -----

  /** Three bytes become four sextets; a tail of one or two bytes becomes two or three. */
  function Sextets(b: Bytes): seq<Sextet> {
    if b == [] then []
    else if |b| == 1 then [b[0] / 4, b[0] % 4 * 16]
    else if |b| == 2 then [b[0] / 4, b[0] % 4 * 16 + b[1] / 16, b[1] % 16 * 4]
    else [b[0] / 4, b[0] % 4 * 16 + b[1] / 16, b[1] % 16 * 4 + b[2] / 64, b[2] % 64] + Sextets(b[3..])
  }

  function JoinFirst(x: int, y: int): Byte
    requires 0 <= x < 64 && 0 <= y < 64
  {
    x * 4 + y / 16
  }

  function JoinSecond(y: int, z: int): Byte
    requires 0 <= y < 64 && 0 <= z < 64
  {
    y % 16 * 16 + z / 4
  }

  function JoinThird(z: int, w: int): Byte
    requires 0 <= z < 64 && 0 <= w < 64
  {
    z % 4 * 64 + w
  }

  /** A tail of one sextet is an error; the spare bits of a longer tail are not looked at. */
  function Joined(v: seq<Sextet>): Option<Bytes> {
    if v == [] then Some([])
    else if |v| == 1 then None
    else if |v| == 2 then Some([JoinFirst(v[0], v[1])])
    else if |v| == 3 then Some([JoinFirst(v[0], v[1]), JoinSecond(v[1], v[2])])
    else
      var rest := Joined(v[4..]);
      if rest.None? then None
      else Some([JoinFirst(v[0], v[1]), JoinSecond(v[1], v[2]), JoinThird(v[2], v[3])] + rest.value)
  }

  lemma Regroup(b0: Byte, b1: Byte, b2: Byte)
    ensures var x, y, z, w := b0 / 4, b0 % 4 * 16 + b1 / 16, b1 % 16 * 4 + b2 / 64, b2 % 64;
            x * 4 + y / 16 == b0 && y % 16 * 16 + z / 4 == b1 && z % 4 * 64 + w == b2
  {
    var y, z := b0 % 4 * 16 + b1 / 16, b1 % 16 * 4 + b2 / 64;
    assert y / 16 == b0 % 4 && y % 16 == b1 / 16;
    assert z / 4 == b1 % 16 && z % 4 == b2 / 64;
  }

  /** The first group of four sextets gives back the first three bytes. */
  lemma FirstGroup(b: Bytes)
    requires |b| >= 3
    ensures var v := Sextets(b);
            && |v| >= 4 && v[4..] == Sextets(b[3..])
            && JoinFirst(v[0], v[1]) == b[0] && JoinSecond(v[1], v[2]) == b[1] && JoinThird(v[2], v[3]) == b[2]
  {
    Regroup(b[0], b[1], b[2]);
  }

  lemma {:induction false} JoinedSextets(b: Bytes)
    ensures Joined(Sextets(b)) == Some(b)
  {
    if |b| == 1 {
      assert b == [b[0]];
    } else if |b| == 2 {
      Regroup(b[0], b[1], 0);
      assert b == [b[0], b[1]];
    } else if |b| >= 3 {
      JoinedSextets(b[3..]);
      FirstGroup(b);
      assert b == [b[0], b[1], b[2]] + b[3..];
    }
  }

  // ----- The codec -----

  function Encode(b: Bytes): (s: Bytes)
    ensures AllSymbols(s)
  {
    Symbols(Sextets(b))
  }

  /** The decoder skips line breaks wherever they stand. */
  function WithoutBreaks(s: Bytes): Bytes {
    Kept(s, NoBreak())
  }

  function NoBreak(): Byte -> bool {
    (c: Byte) => c != 10 && c != 13
  }

  function Decode(s: Bytes): Option<Bytes> {
    var text := WithoutBreaks(s);
    if AllSymbols(text) then Joined(Digits(text)) else None
  }

  lemma NoBreaks(s: Bytes)
    requires AllSymbols(s)
    ensures WithoutBreaks(s) == s
  {
    KeptAll(s, NoBreak());
  }

  /** Decoding undoes encoding, for every tail length. */
  lemma DecodeEncoded(b: Bytes)
    ensures Decode(Encode(b)) == Some(b)
  {
    NoBreaks(Encode(b));
    assert Digits(Encode(b)) == Sextets(b);
    JoinedSextets(b);
  }

  predicate IsBreak(c: Byte) {
    c == '\n' as int || c == '\r' as int
  }

  lemma WithOneMore(a: Bytes, c: Byte, b: Bytes)
    ensures WithoutBreaks(a + b) == WithoutBreaks(a) + WithoutBreaks(b)
    ensures WithoutBreaks(a + [c] + b) ==
            WithoutBreaks(a) + (if IsBreak(c) then [] else [c]) + WithoutBreaks(b)
  {
    KeptConcat(a, b, NoBreak());
    KeptConcat(a + [c], b, NoBreak());
    KeptAppend(a, c, NoBreak());
  }

  lemma NotAllSymbols(a: Bytes, c: Byte, b: Bytes)
    requires !IsSymbol(c)
    ensures !AllSymbols(a + [c] + b)
  {
    assert (a + [c] + b)[|a|] == c;
  }

  /** A line feed or carriage return anywhere changes nothing; any other byte outside the alphabet is an error. */
  lemma OneByteMore(a: Bytes, c: Byte, b: Bytes)
    ensures IsBreak(c) ==> Decode(a + [c] + b) == Decode(a + b)
    ensures !IsBreak(c) && !IsSymbol(c) ==> Decode(a + [c] + b) == None
  {
    WithOneMore(a, c, b);
    if IsBreak(c) {
      assert WithoutBreaks(a) + [] + WithoutBreaks(b) == WithoutBreaks(a) + WithoutBreaks(b);
    } else if !IsSymbol(c) {
      NotAllSymbols(WithoutBreaks(a), c, WithoutBreaks(b));
    }
  }

  // ----- What the encoding is -----

  function Range(first: char, last: char): (s: string)
    requires first <= last < 128 as char
    ensures |s| == last as int - first as int + 1
    ensures forall i :: 0 <= i < |s| ==> s[i] as int == first as int + i
  {
    seq(last as int - first as int + 1, i requires 0 <= i <= last as int - first as int => (first as int + i) as char)
  }

  const ALPHABET: string := Range('A', 'Z') + Range('a', 'z') + Range('0', '9') + "-_"

  /** The characters are those of the URL-safe alphabet, in its order. */
  lemma SymbolIsInAlphabet(v: Sextet)
    ensures |ALPHABET| == 64 && ALPHABET[v] as int == Symbol(v) && IsSymbol(Symbol(v)) && Digit(Symbol(v)) == v
  {
  }

  lemma DigitIsIndex(c: Byte)
    requires IsSymbol(c)
    ensures |ALPHABET| == 64 && ALPHABET[Digit(c)] as int == c
  {
    SymbolIsInAlphabet(Digit(c));
  }

  /** The number that `y`, below the base, makes behind `x`. */
  function Then(x: int, y: int, base: int): int {
    x * base + y
  }

  /** Bits in order: four sextets hold the 24 bits of three bytes, a tail is filled up with zero bits. */
  ghost predicate SameBits(v: seq<Sextet>, b: Bytes, at: nat, from: nat) {
    && (from + 2 < |b| ==>
          && at + 3 < |v|
          && Then(Then(Then(v[at], v[at + 1], 64), v[at + 2], 64), v[at + 3], 64) ==
             Then(Then(b[from], b[from + 1], 256), b[from + 2], 256))
    && (from + 2 == |b| ==>
          && |v| == at + 3
          && Then(Then(v[at], v[at + 1], 64), v[at + 2], 64) == Then(Then(b[from], b[from + 1], 256), 0, 4))
    && (from + 1 == |b| ==> |v| == at + 2 && Then(v[at], v[at + 1], 64) == Then(b[from], 0, 16))
    && (from == |b| ==> |v| == at)
  }

  /** The `i`-th group of sextets has the bits of the `i`-th group of bytes. */
  lemma {:induction false} SextetsHaveTheBits(b: Bytes, i: nat)
    ensures SameBits(Sextets(b), b, 4 * i, 3 * i)
  {
    if |b| < 3 {
    } else if i == 0 {
      FirstBits(b);
    } else {
      SextetsHaveTheBits(b[3..], i - 1);
      FirstGroup(b);
      LaterBits(Sextets(b), b, 4 * (i - 1), 3 * (i - 1));
    }
  }

  lemma LaterBits(v: seq<Sextet>, b: Bytes, at: nat, from: nat)
    requires |b| >= 3 && |v| >= 4 && SameBits(v[4..], b[3..], at, from)
    ensures SameBits(v, b, at + 4, from + 3)
  {
    var w, rest := v[4..], b[3..];
    assert forall k :: 0 <= k < |w| ==> w[k] == v[k + 4];
    assert forall k :: 0 <= k < |rest| ==> rest[k] == b[k + 3];
  }

  lemma GroupBits(b0: Byte, b1: Byte, b2: Byte)
    ensures var x, y, z, w := b0 / 4, b0 % 4 * 16 + b1 / 16, b1 % 16 * 4 + b2 / 64, b2 % 64;
            Then(Then(Then(x, y, 64), z, 64), w, 64) == Then(Then(b0, b1, 256), b2, 256)
  {
    assert b0 == b0 / 4 * 4 + b0 % 4;
    assert b1 == b1 / 16 * 16 + b1 % 16;
    assert b2 == b2 / 64 * 64 + b2 % 64;
  }

  lemma FirstBits(b: Bytes)
    requires |b| >= 3
    ensures SameBits(Sextets(b), b, 0, 0)
  {
    GroupBits(b[0], b[1], b[2]);
  }

  /** The encoding is the alphabet's character for each sextet. */
  lemma EncodedAt(b: Bytes, k: nat)
    requires k < |Sextets(b)|
    ensures |Encode(b)| == |Sextets(b)| && Encode(b)[k] == ALPHABET[Sextets(b)[k]] as int
  {
    SymbolIsInAlphabet(Sextets(b)[k]);
  }

  // ----- Which texts decode to the same bytes -----

  /** The sextets with the spare bits of the tail set to zero, as the encoder leaves them. */
  function Cleared(v: seq<Sextet>): seq<Sextet> {
    if |v| <= 1 then v
    else if |v| == 2 then [v[0], v[1] / 16 * 16]
    else if |v| == 3 then [v[0], v[1], v[2] / 4 * 4]
    else v[..4] + Cleared(v[4..])
  }

  /** Three bytes fix their four sextets. */
  lemma Ungroup(x: Sextet, y: Sextet, z: Sextet, w: Sextet)
    ensures var b0, b1, b2 := JoinFirst(x, y), JoinSecond(y, z), JoinThird(z, w);
            && b0 / 4 == x && b0 % 4 * 16 + b1 / 16 == y
            && b1 % 16 * 4 + b2 / 64 == z && b2 % 64 == w
  {
    assert JoinFirst(x, y) / 4 == x && JoinFirst(x, y) % 4 == y / 16;
    assert JoinSecond(y, z) / 16 == y % 16 && JoinSecond(y, z) % 16 == z / 4;
    assert JoinThird(z, w) / 64 == z % 4 && JoinThird(z, w) % 64 == w;
  }

  lemma {:induction false} SextetsOfJoined(v: seq<Sextet>)
    ensures Joined(v).Some? ==> Sextets(Joined(v).value) == Cleared(v)
  {
    if |v| == 2 {
      Ungroup(v[0], v[1], 0, 0);
    } else if |v| == 3 {
      Ungroup(v[0], v[1], v[2], 0);
    } else if |v| >= 4 {
      SextetsOfJoined(v[4..]);
      Ungroup(v[0], v[1], v[2], v[3]);
      if Joined(v).Some? {
        assert Joined(v).value[3..] == Joined(v[4..]).value;
        assert v[..4] == [v[0], v[1], v[2], v[3]];
      }
    }
  }

  /** The bytes of a list of sextets depend on it only up to the spare bits. */
  lemma {:induction false} JoinedOfCleared(v: seq<Sextet>)
    ensures Joined(Cleared(v)) == Joined(v)
  {
    if |v| < 4 {
    } else {
      JoinedOfCleared(v[4..]);
      assert Cleared(v)[4..] == Cleared(v[4..]);
    }
  }

  /** What a text comes to without line breaks and spare bits. */
  function Canonical(s: Bytes): Option<Bytes> {
    var text := WithoutBreaks(s);
    if AllSymbols(text) then Some(Symbols(Cleared(Digits(text)))) else None
  }

  /** A text decodes to some bytes exactly when its canonical form is their encoding. */
  lemma DecodesIff(s: Bytes, b: Bytes)
    ensures Decode(s) == Some(b) <==> Canonical(s) == Some(Encode(b))
  {
    var text := WithoutBreaks(s);
    if AllSymbols(text) {
      var v := Digits(text);
      if Joined(v) == Some(b) {
        SextetsOfJoined(v);
      }
      if Canonical(s) == Some(Encode(b)) {
        SymbolsInjective(Cleared(v), Sextets(b));
        JoinedSextets(b);
        JoinedOfCleared(v);
      }
    }
  }

  lemma SymbolsInjective(v: seq<Sextet>, w: seq<Sextet>)
    requires Symbols(v) == Symbols(w)
    ensures v == w
  {
    assert forall i :: 0 <= i < |v| ==> v[i] == Digit(Symbols(v)[i]) == Digit(Symbols(w)[i]) == w[i];
  }
}
