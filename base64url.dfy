/** `base64.urlsafe_b64encode`: the base 64 encoding with the URL and
    filename safe alphabet of section 5 of RFC 4648, padded with `=`. */
module Base64Url {
  import opened Prelude

  /** The six-bit value `i` as a character of the section 5 alphabet. */
  function Char(i: int): (c: char)
    requires 0 <= i < 64
    ensures IsAlphabet(c)
  {
    if i < 26 then ('A' as int + i) as char
    else if i < 52 then ('a' as int + i - 26) as char
    else if i < 62 then ('0' as int + i - 52) as char
    else if i == 62 then '-'
    else '_'
  }

  predicate IsAlphabet(c: char) {
    ('A' <= c <= 'Z') || ('a' <= c <= 'z') || ('0' <= c <= '9') || c == '-' || c == '_'
  }

  /** The six-bit value a character of the alphabet stands for. */
  function Index(c: char): (r: Option<int>)
    ensures r.Some? <==> IsAlphabet(c)
    ensures r.Some? ==> 0 <= r.value < 64 && Char(r.value) == c
  {
    if 'A' <= c <= 'Z' then Some(c as int - 'A' as int)
    else if 'a' <= c <= 'z' then Some(c as int - 'a' as int + 26)
    else if '0' <= c <= '9' then Some(c as int - '0' as int + 52)
    else if c == '-' then Some(62)
    else if c == '_' then Some(63)
    else None
  }

  /** Number of `=` characters closing the encoding of `n` bytes. */
  function Padding(n: nat): nat {
    (3 - n % 3) % 3
  }

  /** `urlsafe_b64encode`: four characters per started group of three
      bytes. */
  function Encode(b: seq<byte>): (r: string)
    ensures |r| == 4 * ((|b| + 2) / 3)
  {
    if |b| == 0 then ""
    else if |b| == 1 then [Char(b[0] / 4), Char((b[0] % 4) * 16), '=', '=']
    else if |b| == 2 then
      [Char(b[0] / 4), Char((b[0] % 4) * 16 + b[1] / 16), Char((b[1] % 16) * 4), '=']
    else Group(b[0], b[1], b[2]) + Encode(b[3..])
  }

  /** `r` holds `=` in exactly its last `n` positions and characters of
      the alphabet everywhere else. */
  predicate PaddedBy(r: string, n: nat) {
    n <= |r| && forall i :: 0 <= i < |r| ==> if i < |r| - n then IsAlphabet(r[i]) else r[i] == '='
  }

  /** The characters of an encoding: the alphabet, then exactly the
      padding. */
  lemma {:induction false} EncodeChars(b: seq<byte>)
    ensures PaddedBy(Encode(b), Padding(|b|))
    decreases |b|
  {
    if |b| >= 3 {
      EncodeChars(b[3..]);
      assert Padding(|b|) == Padding(|b[3..]|);
      GroupThenPadded(Group(b[0], b[1], b[2]), Encode(b[3..]), Padding(|b|));
    }
  }

  lemma GroupThenPadded(g: string, rest: string, n: nat)
    requires |g| == 4 && forall i :: 0 <= i < 4 ==> IsAlphabet(g[i])
    requires PaddedBy(rest, n)
    ensures PaddedBy(g + rest, n)
  {
    forall i | 0 <= i < |g + rest|
      ensures if i < |g + rest| - n then IsAlphabet((g + rest)[i]) else (g + rest)[i] == '='
    {
      if i >= 4 {
        assert (g + rest)[i] == rest[i - 4];
      }
    }
  }

  /** The four characters of a full group of three bytes. */
  function Group(b0: byte, b1: byte, b2: byte): (r: string)
    ensures |r| == 4 && forall i :: 0 <= i < 4 ==> IsAlphabet(r[i])
  {
    [Char(b0 / 4), Char((b0 % 4) * 16 + b1 / 16), Char((b1 % 16) * 4 + b2 / 64), Char(b2 % 64)]
  }

  /** The encoding is its `=`-free part followed by the padding. */
  function Unpadded(b: seq<byte>): (r: string)
    ensures forall i :: 0 <= i < |r| ==> IsAlphabet(r[i])
    ensures Encode(b) == r + seq(Padding(|b|), _ => '=')
    ensures r == [] <==> b == []
  {
    EncodeChars(b);
    var e := Encode(b);
    var n := Padding(|b|);
    var r := e[..|e| - n];
    assert forall i :: 0 <= i < |r| ==> r[i] == e[i];
    assert forall i :: |r| <= i < |e| ==> e[i] == '=';
    assert e == r + seq(n, _ => '=') by {
      forall i | 0 <= i < |e| ensures e[i] == (r + seq(n, _ => '='))[i] {
        if i >= |r| {
          assert (r + seq(n, _ => '='))[i] == '=';
        }
      }
    }
    r
  }

  /** Reads back one four-character group that is not the last. */
  function DecodeGroup(c0: char, c1: char, c2: char, c3: char): Option<seq<byte>> {
    match (Index(c0), Index(c1), Index(c2), Index(c3))
    case (Some(i0), Some(i1), Some(i2), Some(i3)) =>
      Some([i0 * 4 + i1 / 16, (i1 % 16) * 16 + i2 / 4, (i2 % 4) * 64 + i3])
    case _ => None
  }

  /** Reads back the last group, which may end in one or two `=`.  The
      bits a padded group leaves unused must be zero, so no second text
      reads back as the same bytes. */
  function DecodeLast(c0: char, c1: char, c2: char, c3: char): Option<seq<byte>> {
    if c2 == '=' && c3 == '=' then
      match (Index(c0), Index(c1))
      case (Some(i0), Some(i1)) => if i1 % 16 == 0 then Some([i0 * 4 + i1 / 16]) else None
      case _ => None
    else if c3 == '=' then
      match (Index(c0), Index(c1), Index(c2))
      case (Some(i0), Some(i1), Some(i2)) =>
        if i2 % 4 == 0 then Some([i0 * 4 + i1 / 16, (i1 % 16) * 16 + i2 / 4]) else None
      case _ => None
    else DecodeGroup(c0, c1, c2, c3)
  }

  /** The strict decoder of padded text: the reference inverse of `Encode`. */
  function Decode(s: string): Option<seq<byte>>
    decreases |s|
  {
    if |s| == 0 then Some([])
    else if |s| < 4 then None
    else if |s| == 4 then DecodeLast(s[0], s[1], s[2], s[3])
    else
      match (DecodeGroup(s[0], s[1], s[2], s[3]), Decode(s[4..]))
      case (Some(g), Some(rest)) => Some(g + rest)
      case _ => None
  }

  lemma IndexOfChar(i: int)
    requires 0 <= i < 64
    ensures Index(Char(i)) == Some(i)
  {
  }

  /** The bit arithmetic of one group undoes itself. */
  lemma GroupArithmetic(b0: byte, b1: byte, b2: byte)
    ensures ((b0 % 4) * 16 + b1 / 16) / 16 == b0 % 4
    ensures ((b0 % 4) * 16 + b1 / 16) % 16 == b1 / 16
    ensures ((b1 % 16) * 4 + b2 / 64) / 4 == b1 % 16
    ensures ((b1 % 16) * 4 + b2 / 64) % 4 == b2 / 64
  {
  }

  lemma DecodeOneByte(b0: byte)
    ensures DecodeLast(Char(b0 / 4), Char((b0 % 4) * 16), '=', '=') == Some([b0])
  {
    IndexOfChar(b0 / 4);
    IndexOfChar((b0 % 4) * 16);
  }

  lemma DecodeTwoBytes(b0: byte, b1: byte)
    ensures DecodeLast(Char(b0 / 4), Char((b0 % 4) * 16 + b1 / 16), Char((b1 % 16) * 4), '=')
      == Some([b0, b1])
  {
    GroupArithmetic(b0, b1, 0);
    IndexOfChar(b0 / 4);
    IndexOfChar((b0 % 4) * 16 + b1 / 16);
    IndexOfChar((b1 % 16) * 4);
  }

  lemma DecodeThreeBytes(b0: byte, b1: byte, b2: byte)
    ensures var g := Group(b0, b1, b2); DecodeGroup(g[0], g[1], g[2], g[3]) == Some([b0, b1, b2])
  {
    GroupArithmetic(b0, b1, b2);
    IndexOfChar(b0 / 4);
    IndexOfChar((b0 % 4) * 16 + b1 / 16);
    IndexOfChar((b1 % 16) * 4 + b2 / 64);
    IndexOfChar(b2 % 64);
  }

  /** Decoding an encoding gives back the bytes. */
  lemma {:induction false} DecodeEncode(b: seq<byte>)
    ensures Decode(Encode(b)) == Some(b)
    decreases |b|
  {
    if |b| == 1 {
      DecodeOneByte(b[0]);
      assert b == [b[0]];
    } else if |b| == 2 {
      DecodeTwoBytes(b[0], b[1]);
      assert b == [b[0], b[1]];
    } else if |b| == 3 {
      DecodeExactlyThree(b);
    } else if |b| > 3 {
      DecodeGroups(b);
    }
  }

  lemma DecodeExactlyThree(b: seq<byte>)
    requires |b| == 3
    ensures Decode(Encode(b)) == Some(b)
  {
    var g := Group(b[0], b[1], b[2]);
    calc {
      Decode(Encode(b));
      { ThreeBytes(b); }
      Decode(g);
      { DecodeOnlyGroup(g); }
      DecodeGroup(g[0], g[1], g[2], g[3]);
      { DecodeThreeBytes(b[0], b[1], b[2]); }
      Some([b[0], b[1], b[2]]);
      { ThreeElements(b); }
      Some(b);
    }
  }

  lemma ThreeElements(b: seq<byte>)
    requires |b| == 3
    ensures b == [b[0], b[1], b[2]]
  {
  }

  lemma ThreeBytes(b: seq<byte>)
    requires |b| == 3
    ensures Encode(b) == Group(b[0], b[1], b[2])
  {
    var g := Group(b[0], b[1], b[2]);
    assert Encode(b) == g + Encode(b[3..]);
    assert |Encode(b[3..])| == 0;
    assert g + Encode(b[3..]) == g;
  }

  lemma {:induction false} DecodeGroups(b: seq<byte>)
    requires |b| > 3
    ensures Decode(Encode(b)) == Some(b)
    decreases |b|, 0
  {
    var g := Group(b[0], b[1], b[2]);
    EncodeFirstGroup(b);
    DecodeThreeBytes(b[0], b[1], b[2]);
    SplitOffThree(b);
    DecodeAfterGroup(g, Encode(b[3..]));
    DecodeEncode(b[3..]);
  }

  lemma EncodeFirstGroup(b: seq<byte>)
    requires |b| >= 3
    ensures Encode(b) == Group(b[0], b[1], b[2]) + Encode(b[3..])
  {
  }

  /** A text of one full group is read by `DecodeGroup`. */
  lemma DecodeOnlyGroup(g: string)
    requires |g| == 4 && forall i :: 0 <= i < 4 ==> IsAlphabet(g[i])
    ensures Decode(g) == DecodeGroup(g[0], g[1], g[2], g[3])
  {
    assert !IsAlphabet('=');
  }

  lemma SplitOffThree(b: seq<byte>)
    requires |b| >= 3
    ensures b == [b[0], b[1], b[2]] + b[3..]
  {
  }

  /** Decoding text of more than one group reads the first group and then
      the rest. */
  lemma DecodeAfterGroup(g: string, rest: string)
    requires |g| == 4 && |rest| >= 4
    ensures Decode(g + rest)
         == match (DecodeGroup(g[0], g[1], g[2], g[3]), Decode(rest))
            case (Some(x), Some(y)) => Some(x + y)
            case _ => None
  {
    var s := g + rest;
    assert s[0] == g[0] && s[1] == g[1] && s[2] == g[2] && s[3] == g[3];
    assert s[4..] == rest;
  }

  /** The bit arithmetic of reading a group, then writing it again. */
  lemma RegroupArithmetic(i0: int, i1: int, i2: int, i3: int, b0: int, b1: int, b2: int)
    requires 0 <= i0 < 64 && 0 <= i1 < 64 && 0 <= i2 < 64 && 0 <= i3 < 64
    requires b0 == i0 * 4 + i1 / 16 && b1 == (i1 % 16) * 16 + i2 / 4 && b2 == (i2 % 4) * 64 + i3
    ensures b0 / 4 == i0 && (b0 % 4) * 16 + b1 / 16 == i1
    ensures (b1 % 16) * 4 + b2 / 64 == i2 && b2 % 64 == i3
  {
  }

  /** A full group that reads back is the group of the bytes read. */
  lemma GroupOfDecoded(c0: char, c1: char, c2: char, c3: char, g: seq<byte>)
    requires DecodeGroup(c0, c1, c2, c3) == Some(g)
    ensures |g| == 3 && Group(g[0], g[1], g[2]) == [c0, c1, c2, c3]
  {
    var i0, i1, i2, i3 := Index(c0).value, Index(c1).value, Index(c2).value, Index(c3).value;
    assert g == [i0 * 4 + i1 / 16, (i1 % 16) * 16 + i2 / 4, (i2 % 4) * 64 + i3];
    RegroupArithmetic(i0, i1, i2, i3, g[0], g[1], g[2]);
    assert Group(g[0], g[1], g[2]) == [Char(i0), Char(i1), Char(i2), Char(i3)];
  }

  /** A last group with `==` that reads back is the encoding of its byte. */
  lemma OneByteOfDecoded(c0: char, c1: char, b: seq<byte>)
    requires DecodeLast(c0, c1, '=', '=') == Some(b)
    ensures Encode(b) == [c0, c1, '=', '=']
  {
    var i0, i1 := Index(c0).value, Index(c1).value;
    assert b == [i0 * 4 + i1 / 16];
    assert (i0 * 4 + i1 / 16) / 4 == i0;
    assert ((i0 * 4 + i1 / 16) % 4) * 16 == i1;
  }

  /** A last group with one `=` that reads back is the encoding of its two
      bytes. */
  lemma TwoBytesOfDecoded(c0: char, c1: char, c2: char, b: seq<byte>)
    requires c2 != '='
    requires DecodeLast(c0, c1, c2, '=') == Some(b)
    ensures Encode(b) == [c0, c1, c2, '=']
  {
    var i0, i1, i2 := Index(c0).value, Index(c1).value, Index(c2).value;
    assert b == [i0 * 4 + i1 / 16, (i1 % 16) * 16 + i2 / 4];
    RegroupArithmetic(i0, i1, i2, 0, b[0], b[1], (i2 % 4) * 64);
    assert Encode(b) == [Char(i0), Char(i1), Char(i2), '='];
  }

  /** A four-character text that reads back is the encoding of what it
      reads back as. */
  lemma LastOfDecoded(t: string, b: seq<byte>)
    requires |t| == 4 && Decode(t) == Some(b)
    ensures Encode(b) == t
  {
    assert t == [t[0], t[1], t[2], t[3]];
    if t[2] == '=' && t[3] == '=' {
      OneByteOfDecoded(t[0], t[1], b);
    } else if t[3] == '=' {
      TwoBytesOfDecoded(t[0], t[1], t[2], b);
    } else {
      GroupOfDecoded(t[0], t[1], t[2], t[3], b);
      ThreeElements(b);
      ThreeBytes(b);
    }
  }

  /** Only the encoding of `b` reads back as `b`: the decoder is strict. */
  lemma {:induction false} EncodeDecode(t: string, b: seq<byte>)
    requires Decode(t) == Some(b)
    ensures Encode(b) == t
    decreases |t|
  {
    if |t| == 4 {
      LastOfDecoded(t, b);
    } else if |t| > 4 {
      var g := DecodeGroup(t[0], t[1], t[2], t[3]).value;
      var rest := Decode(t[4..]).value;
      assert b == g + rest;
      GroupOfDecoded(t[0], t[1], t[2], t[3], g);
      EncodeDecode(t[4..], rest);
      EncodeAfterGroup(t, g, rest);
    }
  }

  lemma EncodeAfterGroup(t: string, g: seq<byte>, rest: seq<byte>)
    requires |t| > 4 && |g| == 3
    requires Group(g[0], g[1], g[2]) == [t[0], t[1], t[2], t[3]]
    requires Encode(rest) == t[4..]
    ensures Encode(g + rest) == t
  {
    var b := g + rest;
    EncodeFirstGroup(b);
    assert b[0] == g[0] && b[1] == g[1] && b[2] == g[2] && b[3..] == rest;
    assert t == [t[0], t[1], t[2], t[3]] + t[4..];
  }

  /** A last group whose unused bits are set is refused, although its
      six-bit values would give the same byte as `AA==`. */
  lemma NonZeroPaddingBitsRefused()
    ensures Decode("AA==") == Some([0])
    ensures Decode("AB==") == None
  {
    assert Index('A') == Some(0) && Index('B') == Some(1);
  }

  /** Distinct byte strings have distinct encodings. */
  lemma EncodeInjective(a: seq<byte>, b: seq<byte>)
    requires Encode(a) == Encode(b)
    ensures a == b
  {
    DecodeEncode(a);
    DecodeEncode(b);
  }
}
