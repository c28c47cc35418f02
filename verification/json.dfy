/** JSON: the firmware's string builder for JSON objects. A builder is the text
    so far plus two flags; `add` appends one `"key": value,` line and `finalize`
    drops the trailing comma and closes the brace, once. */
module Json {
  import opened Common

  datatype Builder = Builder(empty: bool, finalized: bool, text: string)

  /** The shapes a builder can reach: "{" when fresh, a text ending in ',' once a
      field was added, a text ending in "\n}" once finalised. */
  predicate Valid(b: Builder) {
    && |b.text| >= 1 && b.text[0] == '{'
    && (!b.finalized && b.empty ==> b.text == "{")
    && (!b.finalized && !b.empty ==> |b.text| >= 2 && b.text[|b.text| - 1] == ',')
    && (b.finalized ==> |b.text| >= 3 && b.text[|b.text| - 2..] == "\n}")
  }

  /** The JSON constructor. */
  function New(): (b: Builder)
    ensures Valid(b) && b.empty && !b.finalized && b.text == "{"
  {
    Builder(true, false, "{")
  }

  /* ---------- per-character rewriting ---------- */

  /** Every occurrence of `c` in `s` replaced by `rep`, every other character kept. */
  function Replace(s: string, c: char, rep: string): (r: string)
    ensures c !in s ==> r == s
    ensures |rep| >= 1 ==> |r| >= |s|
    decreases |s|
  {
    if |s| == 0 then ""
    else (if s[0] == c then rep else [s[0]]) + Replace(s[1..], c, rep)
  }

  lemma {:induction false} ReplaceConcat(a: string, b: string, c: char, rep: string)
    ensures Replace(a + b, c, rep) == Replace(a, c, rep) + Replace(b, c, rep)
    decreases |a|
  {
    if |a| == 0 {
      assert a + b == b;
    } else {
      DropAppend(a, b, 1);
      assert (a + b)[0] == a[0];
      var h := if a[0] == c then rep else [a[0]];
      ReplaceConcat(a[1..], b, c, rep);
      AppendAssoc(h, Replace(a[1..], c, rep), Replace(b, c, rep));
    }
  }

  function EscapeChar(c: char): string {
    if c == '\\' then "\\\\"
    else if c == '"' then "\\\""
    else [c]
  }

  /** JSON::escape, stated as the per-character map: a backslash goes in front
      of every backslash and every double quote. */
  function Escape(s: string): (r: string)
    ensures |r| >= |s|
    ensures '\\' !in s && '"' !in s ==> r == s
    decreases |s|
  {
    if |s| == 0 then "" else EscapeChar(s[0]) + Escape(s[1..])
  }

  /** Reads an escaped text back: a backslash quotes the character after it. */
  function Unescape(s: string): string
    decreases |s|
  {
    if |s| == 0 then ""
    else if s[0] == '\\' && |s| >= 2 then [s[1]] + Unescape(s[2..])
    else [s[0]] + Unescape(s[1..])
  }

  lemma {:induction false} UnescapeEscape(s: string)
    ensures Unescape(Escape(s)) == s
    decreases |s|
  {
    if |s| > 0 {
      var tail := Escape(s[1..]);
      var e := EscapeChar(s[0]) + tail;
      assert Escape(s) == e;
      UnescapeEscape(s[1..]);
      if s[0] == '\\' || s[0] == '"' {
        assert e[2..] == tail;
      } else {
        assert e[1..] == tail;
      }
      assert s == [s[0]] + s[1..];
    }
  }

  /** The source escapes in two passes, backslashes first and then quotes; the
      second pass cannot see the backslashes the first one added as quotes, so the
      two passes make the per-character map. */
  lemma {:induction false} EscapeIsTwoPasses(s: string)
    ensures Replace(Replace(s, '\\', "\\\\"), '"', "\\\"") == Escape(s)
    decreases |s|
  {
    if |s| > 0 {
      var first := if s[0] == '\\' then "\\\\" else [s[0]];
      assert Replace(s, '\\', "\\\\") == first + Replace(s[1..], '\\', "\\\\");
      ReplaceConcat(first, Replace(s[1..], '\\', "\\\\"), '"', "\\\"");
      EscapeIsTwoPasses(s[1..]);
      if s[0] == '"' {
        assert Replace(first, '"', "\\\"") == "\\\"";
      } else {
        assert Replace(first, '"', "\\\"") == EscapeChar(s[0]);
      }
    }
  }

  /** JSON::indent, stated as the per-character map: a tab after every newline. */
  function Indent(s: string): (r: string)
    ensures '\n' !in s ==> r == s
    ensures |r| >= |s|
  {
    Replace(s, '\n', "\n\t")
  }

  /** Removes the tab after each newline: the partner of Indent. */
  function Dedent(s: string): string
    decreases |s|
  {
    if |s| == 0 then ""
    else if s[0] == '\n' && |s| >= 2 && s[1] == '\t' then "\n" + Dedent(s[2..])
    else [s[0]] + Dedent(s[1..])
  }

  lemma {:induction false} DedentIndent(s: string)
    ensures Dedent(Indent(s)) == s
    decreases |s|
  {
    if |s| > 0 {
      var tail := Indent(s[1..]);
      var head := if s[0] == '\n' then "\n\t" else [s[0]];
      assert Indent(s) == head + tail;
      DedentIndent(s[1..]);
      if s[0] == '\n' {
        assert (head + tail)[2..] == tail;
      } else {
        assert (head + tail)[1..] == tail;
      }
      assert s == [s[0]] + s[1..];
    }
  }

  /* ---------- the in-place loops of escape and indent ---------- */

  /** What each occurrence of `c` becomes when `ins` is inserted before or after it. */
  function Spliced(c: char, ins: char, before: bool): string {
    if before then [ins, c] else [c, ins]
  }

  /** std::string::insert of `ins` just before (or just after) position `pos`. */
  function InsertAt(v: string, pos: nat, ins: char, before: bool): string
    requires pos < |v|
  {
    if before then v[..pos] + [ins] + v[pos..] else v[..pos + 1] + [ins] + v[pos + 1..]
  }

  /** The prefix of `value` up to and including its next `c` after index k. */
  lemma ReplaceStep(value: string, c: char, rep: string, k: nat, j: nat)
    requires k + j < |value| && value[k + j] == c && c !in value[k..k + j]
    ensures Replace(value[..k + j + 1], c, rep) == Replace(value[..k], c, rep) + value[k..k + j] + rep
  {
    assert value[..k + j + 1] == value[..k] + value[k..k + j] + [c];
    ReplaceConcat(value[..k] + value[k..k + j], [c], c, rep);
    ReplaceConcat(value[..k], value[k..k + j], c, rep);
    assert Replace([c], c, rep) == rep + Replace([], c, rep);
  }

  /** The next `c` found past a prefix lies in the rest, with no `c` before it there. */
  lemma NextOccurrence(pre: string, rest: string, c: char, pos: int) returns (j: nat)
    requires pos != NPOS && pos == FindChar(pre + rest, c, |pre|)
    ensures pos == |pre| + j && j < |rest| && rest[j] == c && c !in rest[..j]
  {
    var v := pre + rest;
    j := pos - |pre|;
    assert v[|pre|..] == rest;
    assert forall i :: 0 <= i < j ==> rest[i] == v[|pre| + i];
  }

  /** Inserting at the found `c` turns it into its spliced form. */
  lemma InsertSplice(pre: string, rest: string, c: char, ins: char, before: bool, j: nat)
    requires j < |rest| && rest[j] == c
    ensures InsertAt(pre + rest, |pre| + j, ins, before) == pre + rest[..j] + Spliced(c, ins, before) + rest[j + 1..]
  {
    var v := pre + rest;
    var pos := |pre| + j;
    assert v[..pos] == pre + rest[..j];
    assert v[..pos + 1] == pre + rest[..j] + [c];
    assert v[pos..] == [c] + rest[j + 1..];
    assert v[pos + 1..] == rest[j + 1..];
  }

  /** One turn of the find/insert loop keeps the text equal to the rewritten
      prefix followed by the untouched rest, and resumes just past the rewrite. */
  lemma InsertStep(value: string, c: char, ins: char, before: bool, k: nat, v: string, pos: int)
    returns (k': nat)
    requires k <= |value|
    requires v == Replace(value[..k], c, Spliced(c, ins, before)) + value[k..]
    requires pos != NPOS && pos == FindChar(v, c, |Replace(value[..k], c, Spliced(c, ins, before))|)
    ensures 0 <= pos < |v| && k < k' <= |value|
    ensures InsertAt(v, pos, ins, before) == Replace(value[..k'], c, Spliced(c, ins, before)) + value[k'..]
    ensures pos + 2 == |Replace(value[..k'], c, Spliced(c, ins, before))|
  {
    var rep := Spliced(c, ins, before);
    var pre := Replace(value[..k], c, rep);
    var rest := value[k..];
    var j := NextOccurrence(pre, rest, c, pos);
    InsertSplice(pre, rest, c, ins, before, j);
    k' := k + j + 1;
    var mid, tail := value[k..k + j], value[k'..];
    DropSlices(value, k, j);
    assert InsertAt(v, pos, ins, before) == pre + mid + rep + tail;
    ReplaceStep(value, c, rep, k, j);
    assert Replace(value[..k'], c, rep) == pre + mid + rep;
  }

  /** The find/insert loop shared by escape and indent: look for `c`, insert
      `ins` before it (escape) or after it (indent), resume two places on. */
  method InsertAtEach(value: string, c: char, ins: char, before: bool) returns (v: string)
    ensures v == Replace(value, c, Spliced(c, ins, before))
  {
    v := value;
    ghost var k: nat := 0;
    var pos := FindChar(v, c, 0);
    while pos != NPOS
      invariant k <= |value|
      invariant v == Replace(value[..k], c, Spliced(c, ins, before)) + value[k..]
      invariant pos == FindChar(v, c, |Replace(value[..k], c, Spliced(c, ins, before))|)
      decreases |value| - k
    {
      k := InsertStep(value, c, ins, before, k, v, pos);
      v := InsertAt(v, pos, ins, before);
      pos := FindChar(v, c, pos + 2);
    }
    RestUntouched(value, c, Spliced(c, ins, before), k, v);
  }

  /** When no `c` is left past the rewritten prefix, the whole text is rewritten. */
  lemma RestUntouched(value: string, c: char, rep: string, k: nat, v: string)
    requires k <= |value|
    requires v == Replace(value[..k], c, rep) + value[k..]
    requires FindChar(v, c, |Replace(value[..k], c, rep)|) == NPOS
    ensures v == Replace(value, c, rep)
  {
    var pre, rest := Replace(value[..k], c, rep), value[k..];
    assert c !in rest by {
      forall i | 0 <= i < |rest| ensures rest[i] != c {
        assert rest[i] == v[|pre| + i];
      }
    }
    assert Replace(rest, c, rep) == rest;
    ReplaceConcat(value[..k], rest, c, rep);
    SplitAt(value, k);
  }

  /** JSON::escape as the source runs it: one find/insert pass per escaped character. */
  method EscapeInPlace(value: string) returns (v: string)
    ensures v == Escape(value)
  {
    v := InsertAtEach(value, '\\', '\\', true);
    v := InsertAtEach(v, '"', '\\', true);
    EscapeIsTwoPasses(value);
  }

  /** JSON::indent as the source runs it. */
  method IndentInPlace(value: string) returns (v: string)
    ensures v == Indent(value)
  {
    v := InsertAtEach(value, '\n', '\t', false);
  }

  /* ---------- adding fields and finalising ---------- */

  /** A `"key": value` line without its comma, as the last line of a finalised
      object shows it. */
  function LastLine(key: string, value: string): string {
    "\n\t\"" + key + "\": " + value
  }

  /** The line JSON::add appends: newline, tab, the quoted key, ": ", the value and
      a comma. */
  function Line(key: string, value: string): string {
    LastLine(key, value) + ","
  }

  function Quoted(v: string): string {
    "\"" + v + "\""
  }

  /** JSON::add: a finalised builder is returned unchanged; otherwise the key and
      the value are escaped when asked, the value quoted when asked, and the line
      appended. */
  function Add(b: Builder, key: string, value: string, quotes: bool, escape: bool): (r: Builder)
    ensures b.finalized ==> r == b
    ensures !b.finalized ==> !r.empty && !r.finalized
    ensures !b.finalized ==>
      var k := if escape then Escape(key) else key;
      var v := if escape then Escape(value) else value;
      r.text == b.text + Line(k, if quotes then Quoted(v) else v)
    ensures Valid(b) ==> Valid(r)
  {
    if b.finalized then b
    else
      var k := if escape then Escape(key) else key;
      var v := if escape then Escape(value) else value;
      Builder(false, false, b.text + Line(k, if quotes then Quoted(v) else v))
  }

  function BoolText(v: bool): string {
    if v then "true" else "false"
  }

  /** The words true and false hold nothing escape rewrites. */
  lemma BoolTextPlain(v: bool)
    ensures Escape(BoolText(v)) == BoolText(v)
  {
    var t := BoolText(v);
    assert '\\' !in t && '"' !in t;
  }

  /** JSON::add_bool: an unquoted true/false. */
  function AddBool(b: Builder, key: string, v: bool): (r: Builder)
    ensures !b.finalized ==> r.text == b.text + Line(Escape(key), BoolText(v))
    ensures b.finalized ==> r == b
    ensures Valid(b) ==> Valid(r)
  {
    BoolTextPlain(v);
    Add(b, key, BoolText(v), false, true)
  }

  /** Decimal text holds nothing escape rewrites. */
  lemma IntTextPlain(v: int)
    ensures Escape(IntToString(v)) == IntToString(v)
  {
    var s := IntToString(v);
    ParseIntToString(v);
    assert forall i :: 0 <= i < |s| ==> s[i] == '-' || IsDigit(s[i]) by {
      if v < 0 {
        assert forall i :: 1 <= i < |s| ==> s[1..][i - 1] == s[i];
      }
    }
    assert '\\' !in s && '"' !in s;
  }

  /** JSON::add_int: std::to_string of the value, unquoted. */
  function AddInt(b: Builder, key: string, v: int): (r: Builder)
    ensures !b.finalized ==> r.text == b.text + Line(Escape(key), IntToString(v))
    ensures b.finalized ==> r == b
    ensures Valid(b) ==> Valid(r)
  {
    IntTextPlain(v);
    Add(b, key, IntToString(v), false, true)
  }

  /** JSON::add_string: the escaped value between double quotes. */
  function AddString(b: Builder, key: string, v: string): (r: Builder)
    ensures !b.finalized ==> r.text == b.text + Line(Escape(key), Quoted(Escape(v)))
    ensures b.finalized ==> r == b
    ensures Valid(b) ==> Valid(r)
  {
    Add(b, key, v, true, true)
  }

  /** JSON::finalize: drop the trailing comma of a non-empty builder and close the
      object; a second call returns the text unchanged. The returned string is the
      text of the result. */
  function Finalize(b: Builder): (r: Builder)
    requires Valid(b)
    ensures Valid(r) && r.finalized && r.empty == b.empty
    ensures b.finalized ==> r == b
    ensures !b.finalized && b.empty ==> r.text == "{\n}"
    ensures !b.finalized && !b.empty ==>
      b.text[|b.text| - 1] == ',' && r.text == b.text[..|b.text| - 1] + "\n}"
  {
    if b.finalized then b
    else if b.empty then Builder(b.empty, true, b.text + "\n}")
    else Builder(b.empty, true, b.text[..|b.text| - 1] + "\n}")
  }

  /** JSON::add_json: the nested builder is taken by value, finalised, indented
      and added without quotes or escaping. */
  function AddJson(b: Builder, key: string, inner: Builder): (r: Builder)
    requires Valid(inner)
    ensures !b.finalized ==> r.text == b.text + Line(key, Indent(Finalize(inner).text))
    ensures b.finalized ==> r == b
    ensures Valid(b) ==> Valid(r)
  {
    Add(b, key, Indent(Finalize(inner).text), false, false)
  }

  lemma FinalizeIdempotent(b: Builder)
    requires Valid(b)
    ensures Finalize(Finalize(b)) == Finalize(b)
  {
  }

  lemma AddAfterFinalize(b: Builder, key: string, value: string, quotes: bool, escape: bool)
    requires Valid(b)
    ensures Add(Finalize(b), key, value, quotes, escape) == Finalize(b)
  {
  }

  lemma FinalizeNew()
    ensures Finalize(New()).text == "{\n}"
  {
  }

  /** Finalising a builder whose last line is `key: value` turns that line into
      the object's last line. */
  lemma FinalizeDropsComma(b: Builder, p: string, key: string, value: string)
    requires Valid(b) && !b.finalized && !b.empty && b.text == p + Line(key, value)
    ensures Finalize(b).text == p + LastLine(key, value) + "\n}"
  {
    var last := LastLine(key, value);
    AppendAssoc(p, last, ",");
    assert (p + last + ",")[..|p + last|] == p + last;
  }

  /** A bool field then a string field, finalised, for keys escaping leaves alone. */
  lemma TwoFieldShape(k1: string, k2: string, success: bool, message: string)
    requires Escape(k1) == k1 && Escape(k2) == k2
    ensures Finalize(AddString(AddBool(New(), k1, success), k2, message)).text
         == "{" + Line(k1, BoolText(success)) + LastLine(k2, Quoted(Escape(message))) + "\n}"
  {
    var b := AddString(AddBool(New(), k1, success), k2, message);
    FinalizeDropsComma(b, "{" + Line(k1, BoolText(success)), k2, Quoted(Escape(message)));
  }

  lemma PlainKeys(k1: string, k2: string)
    requires k1 == "success" && k2 == "message"
    ensures Escape(k1) == k1 && Escape(k2) == k2
  {
    assert '\\' !in k1 && '"' !in k1;
    assert '\\' !in k2 && '"' !in k2;
  }

  /** JSON::simple_response: a two-line object, the unquoted success flag under
      "success" and the escaped, quoted message under "message". */
  function SimpleResponse(success: bool, message: string): (r: string)
    ensures r == "{" + Line("success", BoolText(success)) + LastLine("message", Quoted(Escape(message))) + "\n}"
  {
    PlainKeys("success", "message");
    TwoFieldShape("success", "message", success, message);
    Finalize(AddString(AddBool(New(), "success", success), "message", message)).text
  }
}
