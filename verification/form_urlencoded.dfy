/** The percent/plus decoding the firmware applies to form data and query values
    ('+' is a space, "%hh" is the byte 0xhh, everything else is kept), which is the
    percent-decoding step of the application/x-www-form-urlencoded parser of the
    WHATWG URL Standard, section 5.1. Its partner is the byte serializer of section
    5.2 of the same standard, proved to be a right inverse. */
module FormUrlEncoded {
  import opened Common

  predicate IsHex(c: char) {
    ('0' <= c <= '9') || ('a' <= c <= 'f') || ('A' <= c <= 'F')
  }

  function HexValue(c: char): (v: nat)
    requires IsHex(c)
    ensures v < 16
  {
    if '0' <= c <= '9' then c as int - '0' as int
    else if 'a' <= c <= 'f' then c as int - 'a' as int + 10
    else c as int - 'A' as int + 10
  }

  /** Upper-case hex digit, as the serializer writes it. */
  function HexDigit(v: nat): (c: char)
    requires v < 16
    ensures IsHex(c) && HexValue(c) == v
  {
    "0123456789ABCDEF"[v]
  }

  /** Every '%' is followed by two hex digits. The firmware reads past the end of
      the text (or uses an uninitialised value) otherwise, so decoding demands it. */
  predicate WellFormed(s: string)
    decreases |s|
  {
    if |s| == 0 then true
    else if s[0] == '%' then |s| >= 3 && IsHex(s[1]) && IsHex(s[2]) && WellFormed(s[3..])
    else WellFormed(s[1..])
  }

  /** The byte written by sscanf("%x") for the two hex digits after a '%'. */
  function EscapedByte(hi: char, lo: char): (c: char)
    requires IsHex(hi) && IsHex(lo)
    ensures c as int == HexValue(hi) * 16 + HexValue(lo) && c as int < 256
  {
    (HexValue(hi) * 16 + HexValue(lo)) as char
  }

  function Decode(s: string): (r: string)
    requires WellFormed(s)
    ensures |r| <= |s|
    decreases |s|
  {
    if |s| == 0 then ""
    else if s[0] == '%' then [EscapedByte(s[1], s[2])] + Decode(s[3..])
    else if s[0] == '+' then [' '] + Decode(s[1..])
    else [s[0]] + Decode(s[1..])
  }

  /** A character other than '%' in front of a well-formed text: '+' decodes to a
      space and every other character is copied. */
  lemma DecodePlainChar(c: char, t: string)
    requires c != '%' && WellFormed(t)
    ensures WellFormed([c] + t)
    ensures Decode([c] + t) == (if c == '+' then [' '] else [c]) + Decode(t)
  {
    assert ([c] + t)[0] == c && ([c] + t)[1..] == t;
  }

  /** "%hh" in front of a well-formed text decodes to the byte 0xhh. */
  lemma DecodeEscapeChar(hi: char, lo: char, t: string)
    requires IsHex(hi) && IsHex(lo) && WellFormed(t)
    ensures WellFormed(['%', hi, lo] + t)
    ensures Decode(['%', hi, lo] + t) == [EscapedByte(hi, lo)] + Decode(t)
  {
    var s := ['%', hi, lo] + t;
    assert s[0] == '%' && s[1] == hi && s[2] == lo && s[3..] == t;
  }

  /** A text with no '%' is well-formed. */
  lemma {:induction false} NoEscapeWellFormed(s: string)
    requires '%' !in s
    ensures WellFormed(s)
    decreases |s|
  {
    if |s| > 0 {
      assert s[0] in s;
      assert forall i :: 0 <= i < |s[1..]| ==> s[1..][i] == s[i + 1];
      NoEscapeWellFormed(s[1..]);
    }
  }

  /** A text with no '%' and no '+' decodes to itself. */
  lemma {:induction false} DecodeKeeps(s: string)
    requires '%' !in s && '+' !in s
    ensures WellFormed(s) && Decode(s) == s
    decreases |s|
  {
    NoEscapeWellFormed(s);
    if |s| > 0 {
      assert s[0] in s;
      assert forall i :: 0 <= i < |s[1..]| ==> s[1..][i] == s[i + 1];
      DecodeKeeps(s[1..]);
      assert s == [s[0]] + s[1..];
    }
  }

  /** Every suffix of a well-formed text is well-formed: a hex digit is never '%'. */
  lemma {:induction false} WellFormedSuffix(s: string, k: nat)
    requires WellFormed(s) && k <= |s|
    ensures WellFormed(s[k..])
    decreases |s|
  {
    if k > 0 {
      if s[0] == '%' {
        if k >= 3 {
          WellFormedSuffix(s[3..], k - 3);
          assert s[3..][k - 3..] == s[k..];
        } else if k == 1 {
          assert s[1..][1..] == s[2..];
          assert s[2..][1..] == s[3..];
        } else {
          assert s[2..][1..] == s[3..];
        }
      } else {
        WellFormedSuffix(s[1..], k - 1);
        assert s[1..][k - 1..] == s[k..];
      }
    }
  }

  lemma {:induction false} WellFormedConcat(a: string, b: string)
    requires WellFormed(a) && WellFormed(b)
    ensures WellFormed(a + b)
    decreases |a|
  {
    if |a| > 0 {
      var n := if a[0] == '%' then 3 else 1;
      WellFormedConcat(a[n..], b);
      assert (a + b)[n..] == a[n..] + b;
    } else {
      assert a + b == b;
    }
  }

  /** A well-formed text cut at the end or just before an '&' leaves a
      well-formed prefix: a hex digit is never '&'. */
  lemma {:induction false} WellFormedPrefix(s: string, e: nat)
    requires WellFormed(s) && e <= |s|
    requires e == |s| || s[e] == '&'
    ensures WellFormed(s[..e])
    decreases |s|
  {
    if e == |s| {
      assert s[..e] == s;
    } else if e > 0 {
      var n := if s[0] == '%' then 3 else 1;
      WellFormedPrefix(s[n..], e - n);
      assert s[..e][n..] == s[n..][..e - n];
    }
  }

  /** A field value cut out of a well-formed text, ending at the end of the text
      or at an '&', is well-formed itself. */
  lemma WellFormedField(s: string, a: nat, e: nat)
    requires WellFormed(s) && a <= e <= |s|
    requires e == |s| || s[e] == '&'
    ensures WellFormed(s[a..e])
  {
    WellFormedSuffix(s, a);
    WellFormedPrefix(s[a..], e - a);
    assert s[a..][..e - a] == s[a..e];
  }

  /** The number of characters the first decoding step consumes. */
  function Width(s: string): (n: nat)
    requires WellFormed(s) && |s| > 0
    ensures n <= |s| && WellFormed(s[n..])
  {
    if s[0] == '%' then 3 else 1
  }

  /** The text the first decoding step produces. */
  function Unit(s: string): string
    requires WellFormed(s) && |s| > 0
  {
    if s[0] == '%' then [EscapedByte(s[1], s[2])] else if s[0] == '+' then [' '] else [s[0]]
  }

  lemma DecodeStep(s: string)
    requires WellFormed(s) && |s| > 0
    ensures Decode(s) == Unit(s) + Decode(s[Width(s)..])
  {
  }

  /** The first decoding step of a + b is the first step of a. */
  lemma StepOfConcat(a: string, b: string)
    requires WellFormed(a) && WellFormed(b) && |a| > 0
    ensures WellFormed(a + b)
    ensures Width(a + b) == Width(a) && Unit(a + b) == Unit(a)
    ensures (a + b)[Width(a)..] == a[Width(a)..] + b
  {
    WellFormedConcat(a, b);
    var ab := a + b;
    assert ab[0] == a[0];
    if a[0] == '%' {
      assert ab[1] == a[1] && ab[2] == a[2];
    }
    DropAppend(a, b, Width(a));
  }

  /** Decoding distributes over the concatenation of two well-formed texts. */
  lemma {:induction false} DecodeConcat(a: string, b: string)
    requires WellFormed(a) && WellFormed(b)
    ensures WellFormed(a + b) && Decode(a + b) == Decode(a) + Decode(b)
    decreases |a|
  {
    WellFormedConcat(a, b);
    if |a| == 0 {
      assert a + b == b;
    } else {
      StepOfConcat(a, b);
      var n := Width(a);
      var u, ra, rb := Unit(a), Decode(a[n..]), Decode(b);
      DecodeStep(a);
      DecodeStep(a + b);
      DecodeConcat(a[n..], b);
      assert Decode(a + b) == u + (ra + rb);
      assert Decode(a) + rb == (u + ra) + rb;
      AppendAssoc(u, ra, rb);
    }
  }

  /** The loop of Query::decode: one pass over the text, skipping the two hex
      digits after each '%'. */
  method DecodeLoop(value: string) returns (result: string)
    requires WellFormed(value)
    ensures result == Decode(value)
  {
    result := "";
    var i := 0;
    while i < |value|
      invariant 0 <= i <= |value|
      invariant WellFormed(value[i..])
      invariant result + Decode(value[i..]) == Decode(value)
    {
      ghost var rest := value[i..];
      ghost var before := result;
      DecodeStep(rest);
      assert rest[0] == value[i];
      var unit: string;
      if value[i] == '%' {
        assert rest[1] == value[i + 1] && rest[2] == value[i + 2];
        unit := [EscapedByte(value[i + 1], value[i + 2])];
        i := i + 2;
      } else if value[i] == '+' {
        unit := [' '];
      } else {
        unit := [value[i]];
      }
      result := result + unit;
      i := i + 1;
      assert unit == Unit(rest) && rest[Width(rest)..] == value[i..];
      AppendAssoc(before, unit, Decode(value[i..]));
    }
    assert value[i..] == "";
  }

  /* ---------- the serializer (section 5.2) ---------- */

  predicate IsByteString(s: string) {
    forall i :: 0 <= i < |s| ==> s[i] as int < 256
  }

  /** Bytes the serializer leaves as they are. */
  predicate KeptVerbatim(c: char) {
    c == '*' || c == '-' || c == '.' || c == '_' ||
    ('0' <= c <= '9') || ('A' <= c <= 'Z') || ('a' <= c <= 'z')
  }

  function EncodeByte(c: char): (r: string)
    requires c as int < 256
    ensures WellFormed(r) && '&' !in r && '=' !in r && NulFree(r)
  {
    if c == ' ' then "+"
    else if KeptVerbatim(c) then [c]
    else ['%', HexDigit(c as int / 16), HexDigit(c as int % 16)]
  }

  function Encode(s: string): (r: string)
    requires IsByteString(s)
    ensures WellFormed(r) && '&' !in r && '=' !in r && NulFree(r)
    decreases |s|
  {
    if |s| == 0 then ""
    else
      var head := EncodeByte(s[0]);
      var tail := Encode(s[1..]);
      WellFormedConcat(head, tail);
      head + tail
  }

  /** Text made only of bytes the serializer keeps. */
  predicate Verbatim(s: string) {
    forall i :: 0 <= i < |s| ==> KeptVerbatim(s[i])
  }

  /** Verbatim text decodes to itself and holds no separator and no NUL. */
  lemma VerbatimDecode(s: string)
    requires Verbatim(s)
    ensures WellFormed(s) && Decode(s) == s
    ensures NulFree(s) && '&' !in s && '=' !in s
  {
    forall i | 0 <= i < |s|
      ensures s[i] != '%' && s[i] != '+' && s[i] != '\0' && s[i] != '&' && s[i] != '='
    {
      assert KeptVerbatim(s[i]);
    }
    DecodeKeeps(s);
  }

  /** A concatenation of byte strings is one. */
  lemma ByteStringConcat(x: string, y: string)
    requires IsByteString(x) && IsByteString(y)
    ensures IsByteString(x + y)
  {
    forall i | 0 <= i < |x + y| ensures (x + y)[i] as int < 256 {
      if i < |x| {
        assert (x + y)[i] == x[i];
      } else {
        assert (x + y)[i] == y[i - |x|];
      }
    }
  }

  /** The serializer works byte by byte. */
  lemma {:induction false} EncodeConcat(x: string, y: string)
    requires IsByteString(x) && IsByteString(y)
    ensures IsByteString(x + y) && Encode(x + y) == Encode(x) + Encode(y)
    decreases |x|
  {
    ByteStringConcat(x, y);
    if |x| == 0 {
      assert x + y == y;
    } else {
      var t := x[1..];
      assert IsByteString(t) by {
        forall i | 0 <= i < |t| ensures t[i] as int < 256 {
          assert t[i] == x[i + 1];
        }
      }
      DropAppend(x, y, 1);
      assert (x + y)[0] == x[0];
      EncodeConcat(t, y);
      var h := EncodeByte(x[0]);
      assert Encode(x + y) == h + (Encode(t) + Encode(y));
      assert Encode(x) == h + Encode(t);
      AppendAssoc(h, Encode(t), Encode(y));
    }
  }

  /** The serializer leaves a text of verbatim bytes as it is. */
  lemma {:induction false} EncodeVerbatim(s: string)
    requires forall i :: 0 <= i < |s| ==> KeptVerbatim(s[i])
    ensures IsByteString(s) && Encode(s) == s
    decreases |s|
  {
    if |s| > 0 {
      assert forall i :: 0 <= i < |s[1..]| ==> s[1..][i] == s[i + 1];
      EncodeVerbatim(s[1..]);
      assert s == [s[0]] + s[1..];
    }
  }

  /** Decoding undoes the serializer one byte at a time. */
  lemma DecodeEncodeByte(c: char, tail: string)
    requires c as int < 256 && WellFormed(tail)
    ensures WellFormed(EncodeByte(c) + tail) && Decode(EncodeByte(c) + tail) == [c] + Decode(tail)
  {
    var e := EncodeByte(c) + tail;
    WellFormedConcat(EncodeByte(c), tail);
    if c == ' ' {
      assert e[0] == '+' && e[1..] == tail;
    } else if KeptVerbatim(c) {
      assert e[0] == c && e[1..] == tail;
    } else {
      var hi, lo := HexDigit(c as int / 16), HexDigit(c as int % 16);
      assert e[0] == '%' && e[1] == hi && e[2] == lo && e[3..] == tail;
      assert EscapedByte(hi, lo) as int == (c as int / 16) * 16 + c as int % 16;
    }
  }

  lemma {:induction false} DecodeEncode(s: string)
    requires IsByteString(s)
    ensures Decode(Encode(s)) == s
    decreases |s|
  {
    if |s| > 0 {
      assert IsByteString(s[1..]) by {
        forall i | 0 <= i < |s[1..]| ensures s[1..][i] as int < 256 {
          assert s[1..][i] == s[i + 1];
        }
      }
      var tail := Encode(s[1..]);
      assert Encode(s) == EncodeByte(s[0]) + tail;
      DecodeEncodeByte(s[0], tail);
      DecodeEncode(s[1..]);
      assert s == [s[0]] + s[1..];
    }
  }

  /* ---------- the name/value split (section 5.1) ---------- */

  /** The raw value of the first '&'-separated piece whose name is `key`: a piece's
      name runs up to its first '=', a piece with no '=' is a name with the empty
      value, empty pieces are skipped. Names are compared as written. */
  function FieldValue(s: string, key: string): (r: Option<string>)
    ensures r.Some? ==> '&' !in r.value
    ensures r.Some? && WellFormed(s) ==> WellFormed(r.value)
    decreases |s|
  {
    var e := FindChar(s, '&', 0);
    var piece := if e == NPOS then s else s[..e];
    var eq := FindChar(piece, '=', 0);
    var name := if eq == NPOS then piece else piece[..eq];
    if |piece| > 0 && name == key then
      if eq == NPOS then Some("")
      else
        var end := if e == NPOS then |s| else e;
        assert piece[eq + 1..] == s[eq + 1..end];
        assert WellFormed(s) ==> WellFormed(s[eq + 1..end]) by {
          if WellFormed(s) { WellFormedField(s, eq + 1, end); }
        }
        Some(piece[eq + 1..])
    else if e == NPOS then None
    else
      assert WellFormed(s) ==> WellFormed(s[e + 1..]) by {
        if WellFormed(s) { WellFormedSuffix(s, e + 1); }
      }
      FieldValue(s[e + 1..], key)
  }

  /** A name the serializer writes as it is: non-empty, no '&', '=', '%' or '+'. */
  predicate PlainName(n: string) {
    |n| > 0 && forall i :: 0 <= i < |n| ==> KeptVerbatim(n[i])
  }

  predicate Serializable(pairs: seq<(string, string)>) {
    forall i :: 0 <= i < |pairs| ==> PlainName(pairs[i].0) && IsByteString(pairs[i].1)
  }

  /** The serializer of section 5.2 for plain names: `name=encoded-value` pieces
      joined by '&'. */
  function Serialize(pairs: seq<(string, string)>): (r: string)
    requires Serializable(pairs)
    ensures WellFormed(r) && NulFree(r)
    decreases |pairs|
  {
    if |pairs| == 0 then ""
    else
      var piece := pairs[0].0 + "=" + Encode(pairs[0].1);
      assert NulFree(pairs[0].0) by {
        assert forall i :: 0 <= i < |pairs[0].0| ==> KeptVerbatim(pairs[0].0[i]);
      }
      assert WellFormed(pairs[0].0 + "=") by {
        PlainNameWellFormed(pairs[0].0);
        WellFormedConcat(pairs[0].0, "=");
      }
      WellFormedConcat(pairs[0].0 + "=", Encode(pairs[0].1));
      if |pairs| == 1 then piece
      else
        WellFormedConcat(piece, "&");
        WellFormedConcat(piece + "&", Serialize(pairs[1..]));
        piece + "&" + Serialize(pairs[1..])
  }

  lemma {:induction false} PlainNameWellFormed(n: string)
    requires forall i :: 0 <= i < |n| ==> KeptVerbatim(n[i])
    ensures WellFormed(n)
    decreases |n|
  {
    if |n| > 0 {
      assert forall i :: 0 <= i < |n[1..]| ==> KeptVerbatim(n[1..][i]) by {
        forall i | 0 <= i < |n[1..]| ensures KeptVerbatim(n[1..][i]) { assert n[1..][i] == n[i + 1]; }
      }
      PlainNameWellFormed(n[1..]);
    }
  }

  /** The first value paired with `key`, as the parser of section 5.1 reads it. */
  function Lookup(pairs: seq<(string, string)>, key: string): (r: Option<string>)
    ensures r.Some? ==> exists i :: 0 <= i < |pairs| && pairs[i] == (key, r.value)
    ensures r.None? ==> forall i :: 0 <= i < |pairs| ==> pairs[i].0 != key
    decreases |pairs|
  {
    if |pairs| == 0 then None
    else if pairs[0].0 == key then Some(pairs[0].1)
    else Lookup(pairs[1..], key)
  }

  /** The first `c` in `a + [c] + b` is at |a| when `a` holds none. */
  lemma FindCharAfter(a: string, c: char, b: string)
    requires c !in a
    ensures FindChar(a + [c] + b, c, 0) == |a|
  {
    assert (a + [c] + b)[|a|] == c;
  }

  lemma FindCharAbsent(s: string, c: char)
    requires c !in s
    ensures FindChar(s, c, 0) == NPOS
  {
  }

  /** One piece `name=value` in front of more pieces. */
  lemma FieldValueCons(name: string, value: string, rest: string, key: string)
    requires PlainName(name) && '&' !in value
    ensures FieldValue(name + "=" + value + "&" + rest, key)
         == if name == key then Some(value) else FieldValue(rest, key)
  {
    var piece := name + "=" + value;
    var s := piece + "&" + rest;
    assert '&' !in piece by {
      assert forall i :: 0 <= i < |name| ==> piece[i] == name[i];
      assert forall i :: |name| < i < |piece| ==> piece[i] == value[i - |name| - 1];
    }
    FindCharAfter(piece, '&', rest);
    assert s[..|piece|] == piece;
    assert s[|piece| + 1..] == rest;
    assert '=' !in name by { assert forall i :: 0 <= i < |name| ==> KeptVerbatim(name[i]); }
    FindCharAfter(name, '=', value);
    assert piece[..|name|] == name;
    assert piece[|name| + 1..] == value;
  }

  /** The last piece `name=value`. */
  lemma FieldValueLast(name: string, value: string, key: string)
    requires PlainName(name) && '&' !in value
    ensures FieldValue(name + "=" + value, key) == if name == key then Some(value) else None
  {
    var piece := name + "=" + value;
    assert '&' !in piece by {
      assert forall i :: 0 <= i < |name| ==> piece[i] == name[i];
      assert forall i :: |name| < i < |piece| ==> piece[i] == value[i - |name| - 1];
    }
    FindCharAbsent(piece, '&');
    assert '=' !in name by { assert forall i :: 0 <= i < |name| ==> KeptVerbatim(name[i]); }
    FindCharAfter(name, '=', value);
    assert piece[..|name|] == name;
    assert piece[|name| + 1..] == value;
  }

  /** Splitting a serialized text finds the encoding of the first value paired
      with the key, and nothing when no pair has that name. */
  lemma {:induction false} FieldValueSerialize(pairs: seq<(string, string)>, key: string)
    requires Serializable(pairs)
    ensures Lookup(pairs, key).None? ==> FieldValue(Serialize(pairs), key).None?
    ensures Lookup(pairs, key).Some? ==>
      FieldValue(Serialize(pairs), key) == Some(Encode(Lookup(pairs, key).value))
    decreases |pairs|
  {
    if |pairs| == 0 {
      assert FindChar("", '&', 0) == NPOS;
    } else if |pairs| == 1 {
      FieldValueLast(pairs[0].0, Encode(pairs[0].1), key);
    } else {
      assert Serializable(pairs[1..]) by {
        forall i | 0 <= i < |pairs[1..]| ensures PlainName(pairs[1..][i].0) && IsByteString(pairs[1..][i].1) {
          assert pairs[1..][i] == pairs[i + 1];
        }
      }
      FieldValueCons(pairs[0].0, Encode(pairs[0].1), Serialize(pairs[1..]), key);
      FieldValueSerialize(pairs[1..], key);
    }
  }
}
