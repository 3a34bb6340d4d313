/** Base64 as Python's `base64.b64decode(s)` performs it on a `str` argument without
    `validate=True`: the RFC 4648 section 4 alphabet, decoded by CPython's
    non-validating `binascii.a2b_base64`. Characters outside the alphabet are
    discarded, a pad sequence ends the input, and a dangling partial quantum is an
    error. An RFC 4648 encoder is defined alongside as the decoder's partner. */
module Base64 {
  import opened Results
  import PyStr

  type byte = x: int | 0 <= x < 256

  /** The 64 data characters of the RFC 4648 section 4 alphabet. */
  predicate IsAlphabet(c: char) {
    ('A' <= c <= 'Z') || ('a' <= c <= 'z') || ('0' <= c <= '9') || c == '+' || c == '/'
  }

  /** The 6-bit value an alphabet character stands for. */
  function ValueOf(c: char): (v: nat)
    requires IsAlphabet(c)
    ensures v < 64
  {
    if 'A' <= c <= 'Z' then (c as int) - ('A' as int)
    else if 'a' <= c <= 'z' then (c as int) - ('a' as int) + 26
    else if '0' <= c <= '9' then (c as int) - ('0' as int) + 52
    else if c == '+' then 62
    else 63
  }

  /** The alphabet character standing for the 6-bit value `v`. */
  function CharOf(v: nat): (c: char)
    requires v < 64
    ensures IsAlphabet(c) && ValueOf(c) == v
    ensures c as int < 128 && c != '=' && c != ' '
  {
    if v < 26 then (('A' as int) + v) as char
    else if v < 52 then (('a' as int) + v - 26) as char
    else if v < 62 then (('0' as int) + v - 52) as char
    else if v == 62 then '+'
    else '/'
  }

  /** The bits still owed to the next output byte when `quad` data characters of
      the current 4-character quantum have been read. */
  predicate Carry(quad: nat, left: nat) {
    quad < 4 && (quad == 0 ==> left == 0) && (quad == 1 ==> left < 64)
    && (quad == 2 ==> left < 16) && (quad == 3 ==> left < 4)
  }

  /** One pass of `a2b_base64` in non-strict mode over the rest `s` of the input,
      in the state (position in the quantum, leftover bits, pads seen since the
      last data character, bytes so far). */
  function DecodeFrom(s: string, quad: nat, left: nat, pads: nat, acc: seq<byte>): (r: Option<seq<byte>>)
    requires Carry(quad, left)
    ensures r.Some? ==> acc <= r.value
    decreases |s|
  {
    if s == [] then
      if quad == 0 then Some(acc) else None
    else if s[0] == '=' then
      if quad >= 2 && quad + pads + 1 >= 4 then Some(acc)
      else DecodeFrom(s[1..], quad, left, if quad >= 2 then pads + 1 else pads, acc)
    else if !IsAlphabet(s[0]) then
      DecodeFrom(s[1..], quad, left, pads, acc)
    else
      var v := ValueOf(s[0]);
      if quad == 0 then DecodeFrom(s[1..], 1, v, 0, acc)
      else if quad == 1 then DecodeFrom(s[1..], 2, v % 16, 0, acc + [left * 4 + v / 16])
      else if quad == 2 then DecodeFrom(s[1..], 3, v % 4, 0, acc + [left * 16 + v / 4])
      else DecodeFrom(s[1..], 0, 0, 0, acc + [left * 64 + v])
  }

  /** `base64.b64decode(s)`: `None` where Python raises (a non-ASCII character,
      an incomplete final quantum without its padding). */
  function Decode(s: string): (r: Option<seq<byte>>)
    ensures !PyStr.IsAscii(s) ==> r.None?
    ensures r.Some? ==> |r.value| <= AlphabetCount(s)
  {
    if !PyStr.IsAscii(s) then None
    else
      DecodedLength(s, 0, 0, 0, []);
      DecodeFrom(s, 0, 0, 0, [])
  }

  /** RFC 4648 section 4 encoding with `=` padding, as `base64.b64encode` produces it. */
  function Encode(b: seq<byte>): (e: string)
    ensures |e| == (|b| + 2) / 3 * 4
    ensures PyStr.IsAscii(e) && ' ' !in e
    ensures forall k :: 0 <= k < |e| ==> IsAlphabet(e[k]) || e[k] == '='
    decreases |b|
  {
    if |b| == 0 then []
    else if |b| == 1 then [CharOf(b[0] / 4), CharOf(b[0] % 4 * 16), '=', '=']
    else if |b| == 2 then [CharOf(b[0] / 4), CharOf(b[0] % 4 * 16 + b[1] / 16), CharOf(b[1] % 16 * 4), '=']
    else Quantum(b[0], b[1], b[2]) + Encode(b[3..])
  }

  /** The four characters encoding three bytes. */
  function Quantum(x: byte, y: byte, z: byte): string {
    [CharOf(x / 4), CharOf(x % 4 * 16 + y / 16), CharOf(y % 16 * 4 + z / 64), CharOf(z % 64)]
  }

  /** Encoded text never starts or ends with whitespace, so `strip` leaves it alone. */
  lemma EncodedTrimmed(b: seq<byte>)
    ensures PyStr.Trimmed(Encode(b))
  {
    var e := Encode(b);
    if e != [] {
      assert IsAlphabet(e[0]) || e[0] == '=';
      assert IsAlphabet(e[|e| - 1]) || e[|e| - 1] == '=';
    }
  }

  /** The number of alphabet characters in `s`. */
  function AlphabetCount(s: string): nat {
    if s == [] then 0 else (if IsAlphabet(s[0]) then 1 else 0) + AlphabetCount(s[1..])
  }

  /** Decoding undoes encoding: `b64decode(b64encode(b)) == b`. */
  lemma RoundTrip(b: seq<byte>)
    ensures Decode(Encode(b)) == Some(b)
  {
    DecodeEncoded(b, 0, []);
    assert [] + b == b;
  }

  lemma {:induction false} DecodeEncoded(b: seq<byte>, pads: nat, acc: seq<byte>)
    ensures DecodeFrom(Encode(b), 0, 0, pads, acc) == Some(acc + b)
    decreases |b|
  {
    if |b| < 3 {
      DecodeEncodedShort(b, pads, acc);
    } else {
      var head, rest := acc + [b[0], b[1], b[2]], Encode(b[3..]);
      calc {
        DecodeFrom(Encode(b), 0, 0, pads, acc);
        { assert Encode(b) == Quantum(b[0], b[1], b[2]) + rest; }
        DecodeFrom(Quantum(b[0], b[1], b[2]) + rest, 0, 0, pads, acc);
        { DecodeQuantum(b[0], b[1], b[2], rest, pads, acc); }
        DecodeFrom(rest, 0, 0, 0, head);
        { DecodeEncoded(b[3..], 0, head); }
        Some(head + b[3..]);
        { assert head + b[3..] == acc + b; }
        Some(acc + b);
      }
    }
  }

  /** The final, padded quantum of an encoding. */
  lemma {:induction false} DecodeEncodedShort(b: seq<byte>, pads: nat, acc: seq<byte>)
    requires |b| < 3
    ensures DecodeFrom(Encode(b), 0, 0, pads, acc) == Some(acc + b)
  {
    if |b| == 0 {
      assert acc + b == acc;
    } else if |b| == 1 {
      DecodeOnePadded(b[0], pads, acc);
      assert acc + [b[0]] == acc + b;
    } else {
      DecodeTwoPadded(b[0], b[1], pads, acc);
      assert acc + [b[0], b[1]] == acc + b;
    }
  }

  /** A full quantum yields its three bytes and leaves the decoder at a quantum boundary. */
  lemma {:induction false} DecodeQuantum(x: byte, y: byte, z: byte, rest: string, pads: nat, acc: seq<byte>)
    ensures DecodeFrom(Quantum(x, y, z) + rest, 0, 0, pads, acc) == DecodeFrom(rest, 0, 0, 0, acc + [x, y, z])
  {
    var c0, c1, c2, c3 := CharOf(x / 4), CharOf(x % 4 * 16 + y / 16), CharOf(y % 16 * 4 + z / 64), CharOf(z % 64);
    assert Quantum(x, y, z) + rest == [c0, c1] + ([c2, c3] + rest);
    DecodeFirstHalf(x, y, [c2, c3] + rest, pads, acc);
    DecodeSecondHalf(y, z, rest, acc + [x]);
    assert acc + [x] + [y, z] == acc + [x, y, z];
  }

  /** The first two characters of a quantum yield its first byte. */
  lemma {:induction false} DecodeFirstHalf(x: byte, y: byte, rest: string, pads: nat, acc: seq<byte>)
    ensures DecodeFrom([CharOf(x / 4), CharOf(x % 4 * 16 + y / 16)] + rest, 0, 0, pads, acc)
         == DecodeFrom(rest, 2, y / 16, 0, acc + [x])
  {
    var e := [CharOf(x / 4), CharOf(x % 4 * 16 + y / 16)] + rest;
    DivMod4(x);
    DivMod16(y);
    assert e[1..][1..] == rest;
    assert DecodeFrom(e, 0, 0, pads, acc) == DecodeFrom(e[1..], 1, x / 4, 0, acc);
  }

  /** The last two characters of a quantum yield its second and third bytes. */
  lemma {:induction false} DecodeSecondHalf(y: byte, z: byte, rest: string, acc: seq<byte>)
    ensures DecodeFrom([CharOf(y % 16 * 4 + z / 64), CharOf(z % 64)] + rest, 2, y / 16, 0, acc)
         == DecodeFrom(rest, 0, 0, 0, acc + [y, z])
  {
    var e := [CharOf(y % 16 * 4 + z / 64), CharOf(z % 64)] + rest;
    DivMod16(y);
    DivMod64(z);
    var v2 := y % 16 * 4 + z / 64;
    assert v2 / 4 == y % 16 && v2 % 4 == z / 64;
    assert e[1..][1..] == rest;
    assert DecodeFrom(e, 2, y / 16, 0, acc) == DecodeFrom(e[1..], 3, z / 64, 0, acc + [y]);
    assert acc + [y] + [z] == acc + [y, z];
  }

  /** A final quantum holding one byte and two pad characters. */
  lemma {:induction false} DecodeOnePadded(x: byte, pads: nat, acc: seq<byte>)
    ensures DecodeFrom([CharOf(x / 4), CharOf(x % 4 * 16), '=', '='], 0, 0, pads, acc) == Some(acc + [x])
  {
    var e := [CharOf(x / 4), CharOf(x % 4 * 16), '=', '='];
    DivMod4(x);
    assert e[1..][1..] == ['=', '='] && e[1..][1..][1..] == ['='];
    assert DecodeFrom(e, 0, 0, pads, acc) == DecodeFrom(e[1..], 1, x / 4, 0, acc);
    assert DecodeFrom(e[1..], 1, x / 4, 0, acc) == DecodeFrom(e[1..][1..], 2, 0, 0, acc + [x]);
  }

  /** A final quantum holding two bytes and one pad character. */
  lemma {:induction false} DecodeTwoPadded(x: byte, y: byte, pads: nat, acc: seq<byte>)
    ensures DecodeFrom([CharOf(x / 4), CharOf(x % 4 * 16 + y / 16), CharOf(y % 16 * 4), '='], 0, 0, pads, acc)
         == Some(acc + [x, y])
  {
    var e := [CharOf(x / 4), CharOf(x % 4 * 16 + y / 16), CharOf(y % 16 * 4), '='];
    DivMod4(x);
    DivMod16(y);
    assert e[1..][1..][1..] == ['='];
    assert DecodeFrom(e, 0, 0, pads, acc) == DecodeFrom(e[1..], 1, x / 4, 0, acc);
    assert DecodeFrom(e[1..], 1, x / 4, 0, acc) == DecodeFrom(e[1..][1..], 2, y / 16, 0, acc + [x]);
    assert DecodeFrom(e[1..][1..], 2, y / 16, 0, acc + [x]) == DecodeFrom(e[1..][1..][1..], 3, 0, 0, acc + [x] + [y]);
    assert acc + [x] + [y] == acc + [x, y];
  }

  /** The characters the decoder looks at: alphabet characters and `=`. */
  function Significant(s: string): (r: string)
    ensures forall k :: 0 <= k < |r| ==> IsAlphabet(r[k]) || r[k] == '='
    ensures AlphabetCount(r) == AlphabetCount(s)
  {
    if s == [] then []
    else if IsAlphabet(s[0]) || s[0] == '=' then [s[0]] + Significant(s[1..])
    else Significant(s[1..])
  }

  /** Non-validating mode: characters outside the alphabet are discarded before
      anything else happens, so they never affect the bytes or the padding check. */
  lemma {:induction false} IgnoresNonAlphabet(s: string, quad: nat, left: nat, pads: nat, acc: seq<byte>)
    requires Carry(quad, left)
    ensures DecodeFrom(s, quad, left, pads, acc) == DecodeFrom(Significant(s), quad, left, pads, acc)
    decreases |s|
  {
    if s == [] {
    } else if IsAlphabet(s[0]) || s[0] == '=' {
      var r := Significant(s);
      assert r[0] == s[0] && r[1..] == Significant(s[1..]);
      if s[0] == '=' {
        if !(quad >= 2 && quad + pads + 1 >= 4) {
          IgnoresNonAlphabet(s[1..], quad, left, if quad >= 2 then pads + 1 else pads, acc);
        }
      } else {
        var v := ValueOf(s[0]);
        if quad == 0 {
          IgnoresNonAlphabet(s[1..], 1, v, 0, acc);
        } else if quad == 1 {
          IgnoresNonAlphabet(s[1..], 2, v % 16, 0, acc + [left * 4 + v / 16]);
        } else if quad == 2 {
          IgnoresNonAlphabet(s[1..], 3, v % 4, 0, acc + [left * 16 + v / 4]);
        } else {
          IgnoresNonAlphabet(s[1..], 0, 0, 0, acc + [left * 64 + v]);
        }
      }
    } else {
      IgnoresNonAlphabet(s[1..], quad, left, pads, acc);
    }
  }

  /** Without any `=`, decoding succeeds exactly when the data characters complete
      the current quantum: any other count raises "Incorrect padding" (or the
      "1 more than a multiple of 4" error). */
  lemma {:induction false} UnpaddedDecodes(s: string, quad: nat, left: nat, pads: nat, acc: seq<byte>)
    requires Carry(quad, left) && '=' !in s
    ensures DecodeFrom(s, quad, left, pads, acc).Some? <==> (quad + AlphabetCount(s)) % 4 == 0
    decreases |s|
  {
    if s == [] {
    } else {
      assert '=' !in s[1..] by { assert forall k :: 0 <= k < |s[1..]| ==> s[1..][k] == s[k + 1]; }
      if !IsAlphabet(s[0]) {
        UnpaddedDecodes(s[1..], quad, left, pads, acc);
      } else {
        var v := ValueOf(s[0]);
        if quad == 0 {
          UnpaddedDecodes(s[1..], 1, v, 0, acc);
        } else if quad == 1 {
          UnpaddedDecodes(s[1..], 2, v % 16, 0, acc + [left * 4 + v / 16]);
        } else if quad == 2 {
          UnpaddedDecodes(s[1..], 3, v % 4, 0, acc + [left * 16 + v / 4]);
        } else {
          UnpaddedDecodes(s[1..], 0, 0, 0, acc + [left * 64 + v]);
        }
      }
    }
  }

  /** `b64decode` on ASCII text without `=` succeeds exactly when the text holds a
      multiple of four alphabet characters, whatever else it contains. */
  lemma UnpaddedText(s: string)
    requires PyStr.IsAscii(s) && '=' !in s
    ensures Decode(s).Some? <==> AlphabetCount(s) % 4 == 0
  {
    UnpaddedDecodes(s, 0, 0, 0, []);
  }

  /** Every alphabet character yields at most one byte. */
  lemma {:induction false} DecodedLength(s: string, quad: nat, left: nat, pads: nat, acc: seq<byte>)
    requires Carry(quad, left)
    ensures DecodeFrom(s, quad, left, pads, acc).Some? ==>
      |DecodeFrom(s, quad, left, pads, acc).value| <= |acc| + AlphabetCount(s)
    decreases |s|
  {
    if s == [] {
    } else if s[0] == '=' {
      if !(quad >= 2 && quad + pads + 1 >= 4) {
        DecodedLength(s[1..], quad, left, if quad >= 2 then pads + 1 else pads, acc);
      }
    } else if !IsAlphabet(s[0]) {
      DecodedLength(s[1..], quad, left, pads, acc);
    } else {
      var v := ValueOf(s[0]);
      if quad == 0 {
        DecodedLength(s[1..], 1, v, 0, acc);
      } else if quad == 1 {
        DecodedLength(s[1..], 2, v % 16, 0, acc + [left * 4 + v / 16]);
      } else if quad == 2 {
        DecodedLength(s[1..], 3, v % 4, 0, acc + [left * 16 + v / 4]);
      } else {
        DecodedLength(s[1..], 0, 0, 0, acc + [left * 64 + v]);
      }
    }
  }

  /** `Significant` distributes over concatenation. */
  lemma {:induction false} SignificantAppend(a: string, b: string)
    ensures Significant(a + b) == Significant(a) + Significant(b)
    decreases |a|
  {
    if a == [] {
      assert a + b == b;
    } else {
      assert (a + b)[1..] == a[1..] + b;
      SignificantAppend(a[1..], b);
    }
  }

  /** Text holding no alphabet character and no `=` contributes nothing to the decoder. */
  lemma {:induction false} SignificantOfNoise(s: string)
    requires forall k :: 0 <= k < |s| ==> !IsAlphabet(s[k]) && s[k] != '='
    ensures Significant(s) == []
    decreases |s|
  {
    if s != [] {
      SignificantOfNoise(s[1..]);
    }
  }

  /** Text made only of alphabet characters and `=` is left as it is. */
  lemma {:induction false} SignificantOfSignificant(s: string)
    requires forall k :: 0 <= k < |s| ==> IsAlphabet(s[k]) || s[k] == '='
    ensures Significant(s) == s
    decreases |s|
  {
    if s != [] {
      SignificantOfSignificant(s[1..]);
    }
  }

  /** Base64 text surrounded by ASCII whitespace (a trailing newline, say) or other
      ASCII characters outside the alphabet and `=` decodes to the same bytes, since
      those characters are skipped. */
  lemma EncodedWithNoise(pre: string, b: seq<byte>, post: string)
    requires PyStr.IsAscii(pre) && PyStr.IsAscii(post)
    requires forall k :: 0 <= k < |pre| ==> !IsAlphabet(pre[k]) && pre[k] != '='
    requires forall k :: 0 <= k < |post| ==> !IsAlphabet(post[k]) && post[k] != '='
    ensures Decode(pre + Encode(b) + post) == Some(b)
  {
    var e := Encode(b);
    var s := pre + e + post;
    assert PyStr.IsAscii(s) by {
      forall k | 0 <= k < |s| ensures s[k] as int < 128 {
        if k < |pre| { assert s[k] == pre[k]; }
        else if k < |pre| + |e| { assert s[k] == e[k - |pre|]; }
        else { assert s[k] == post[k - |pre| - |e|]; }
      }
    }
    SignificantAppend(pre + e, post);
    SignificantAppend(pre, e);
    SignificantOfNoise(pre);
    SignificantOfNoise(post);
    SignificantOfSignificant(e);
    assert Significant(s) == e by { assert [] + e + [] == e; }
    IgnoresNonAlphabet(s, 0, 0, 0, []);
    IgnoresNonAlphabet(e, 0, 0, 0, []);
    RoundTrip(b);
  }

  /** Counting alphabet characters distributes over concatenation. */
  lemma {:induction false} AlphabetCountAppend(a: string, b: string)
    ensures AlphabetCount(a + b) == AlphabetCount(a) + AlphabetCount(b)
    decreases |a|
  {
    if a == [] {
      assert a + b == b;
    } else {
      assert (a + b)[1..] == a[1..] + b;
      AlphabetCountAppend(a[1..], b);
    }
  }

  lemma DivMod4(x: byte)
    ensures (x % 4 * 16) / 16 == x % 4 && (x % 4 * 16) % 16 == 0
    ensures x / 4 * 4 + x % 4 == x
  {
  }

  lemma DivMod16(y: byte)
    ensures forall h :: 0 <= h < 4 ==> (h * 16 + y / 16) / 16 == h && (h * 16 + y / 16) % 16 == y / 16
    ensures y / 16 * 16 + y % 16 == y
    ensures (y % 16 * 4) / 4 == y % 16 && (y % 16 * 4) % 4 == 0
  {
  }

  lemma DivMod64(z: byte)
    ensures z / 64 * 64 + z % 64 == z
    ensures z / 64 < 4
  {
  }
}
