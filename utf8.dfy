/** `str.encode("utf-8")`: the UTF-8 encoding form of Unicode, one to four
    bytes per scalar value. */
module Utf8 {
  import opened Prelude

  function EncodeChar(c: char): (r: seq<byte>)
    ensures 1 <= |r| <= 4
    ensures r[0] < 0x80 <==> c as int < 0x80
    ensures c as int < 0x80 ==> r == [c as int]
    ensures |r| > 1 ==> 0x80 <= r[|r| - 1] < 0xC0
  {
    var n := c as int;
    if n < 0x80 then [n]
    else if n < 0x800 then [0xC0 + n / 64, 0x80 + n % 64]
    else if n < 0x10000 then [0xE0 + n / 4096, 0x80 + (n / 64) % 64, 0x80 + n % 64]
    else [0xF0 + n / 262144, 0x80 + (n / 4096) % 64, 0x80 + (n / 64) % 64, 0x80 + n % 64]
  }

  function Encode(s: string): (r: seq<byte>)
    ensures |r| >= |s|
  {
    if s == [] then [] else EncodeChar(s[0]) + Encode(s[1..])
  }

  /** Encoding distributes over concatenation. */
  lemma {:induction false} EncodeConcat(s: string, t: string)
    ensures Encode(s + t) == Encode(s) + Encode(t)
  {
    if s == [] {
      assert s + t == t;
    } else {
      assert (s + t)[1..] == s[1..] + t;
      EncodeConcat(s[1..], t);
    }
  }

  /** A text made only of ASCII characters encodes to their code points. */
  lemma {:induction false} EncodeAscii(s: string)
    requires forall i :: 0 <= i < |s| ==> s[i] as int < 0x80
    ensures |Encode(s)| == |s|
    ensures forall i :: 0 <= i < |s| ==> Encode(s)[i] == s[i] as int
  {
    if s != [] {
      EncodeAscii(s[1..]);
    }
  }

  /** The `=` strip done on UTF-8 bytes (as the short-token signer does, on
      `bytes`) equals the strip done on characters and then encoded: the
      byte 0x3D ends an encoding only when that encoding is of `=`. */
  lemma {:induction false} DropTrailingCommutes(s: string)
    ensures DropTrailing(Encode(s), '=' as int) == Encode(DropTrailing(s, '='))
    decreases |s|
  {
    if s != [] {
      var init, c := s[..|s| - 1], s[|s| - 1];
      assert s == init + [c];
      EncodeConcat(init, [c]);
      assert Encode([c]) == EncodeChar(c) by {
        assert [c][1..] == [];
      }
      var e := Encode(s);
      if c == '=' {
        assert e[..|e| - 1] == Encode(init);
        DropTrailingCommutes(init);
      } else {
        assert e[|e| - 1] != '=' as int;
      }
    }
  }
}
