/** Query: a URL query string and the lookup of one value in it. `get` finds the
    first occurrence of `key=` anywhere in the text and decodes what follows it up
    to the next '&'. */
module Query {
  import opened Common
  import opened FormUrlEncoded

  datatype Query = Query(empty: bool, text: string)

  /** Query(const char*): the characters up to the first NUL, marked non-empty. */
  function FromCString(s: string): (q: Query)
    ensures !q.empty && NulFree(q.text) && q.text <= s
    ensures NulFree(s) ==> q.text == s
    ensures !NulFree(s) ==> |q.text| < |s| && s[|q.text|] == '\0'
  {
    Query(false, CStr(s))
  }

  /** `a` is just past the first occurrence of `key=` in `s`. */
  predicate ValueStart(s: string, key: string, a: int) {
    var p := a - |key| - 1;
    OccursAt(s, key + "=", p) && forall i :: 0 <= i < p ==> !OccursAt(s, key + "=", i)
  }

  /** `e` is the first '&' at or after `a`, or the end of `s`. */
  predicate ValueEnd(s: string, a: int, e: int) {
    0 <= a <= e <= |s| && (e == |s| || s[e] == '&') && forall i :: a <= i < e ==> s[i] != '&'
  }

  /** What `get` decodes holds a well-formed escape after every '%'. */
  ghost predicate ValueDecodable(s: string, key: string) {
    forall a, e :: ValueStart(s, key, a) && ValueEnd(s, a, e) ==> WellFormed(s[a..e])
  }

  lemma WellFormedDecodable(s: string, key: string)
    requires WellFormed(s)
    ensures ValueDecodable(s, key)
  {
    forall a, e | ValueStart(s, key, a) && ValueEnd(s, a, e) ensures WellFormed(s[a..e]) {
      WellFormedField(s, a, e);
    }
  }

  /** Query::get: "" for an empty query or a missing `key=`; otherwise the decode
      of the text from just past the first `key=` to the next '&' or the end. */
  function Get(q: Query, key: string): (r: string)
    requires ValueDecodable(q.text, key)
    ensures q.empty ==> r == ""
    ensures (forall i :: !OccursAt(q.text, key + "=", i)) ==> r == ""
    ensures !q.empty ==> forall a, e :: ValueStart(q.text, key, a) && ValueEnd(q.text, a, e) ==> r == Decode(q.text[a..e])
  {
    if q.empty then ""
    else
      var pos := FindSub(q.text, key + "=", 0);
      if pos == NPOS then ""
      else
        var start := pos + |key| + 1;
        var end := FindChar(q.text, '&', start);
        var stop := if end == NPOS then |q.text| else end;
        assert ValueStart(q.text, key, start) && ValueEnd(q.text, start, stop);
        UniqueValueRange(q.text, key, start, stop);
        Decode(q.text[start..stop])
  }

  /** The first occurrence and the next '&' fix the range `get` decodes. */
  lemma UniqueValueRange(s: string, key: string, a: int, e: int)
    requires ValueStart(s, key, a) && ValueEnd(s, a, e)
    ensures forall a', e' :: ValueStart(s, key, a') && ValueEnd(s, a', e') ==> a' == a && e' == e
  {
    forall a', e' | ValueStart(s, key, a') && ValueEnd(s, a', e') ensures a' == a && e' == e {
    }
  }

  /** Query::get of a query built from a text whose every escape is well formed. */
  lemma GetFromCString(s: string, key: string)
    requires NulFree(s) && WellFormed(s)
    ensures ValueDecodable(FromCString(s).text, key)
    ensures (forall i :: !OccursAt(s, key + "=", i)) ==> Get(FromCString(s), key) == ""
    ensures forall a, e :: ValueStart(s, key, a) && ValueEnd(s, a, e) ==> Get(FromCString(s), key) == Decode(s[a..e])
  {
    WellFormedDecodable(s, key);
  }

  /* ---------- the lookup anchored at piece boundaries ---------- */

  /** `get` as its callers evidently mean it: the value of the piece whose name is
      `key`, decoded. */
  function GetField(q: Query, key: string): (r: string)
    requires FieldValue(q.text, key).Some? ==> WellFormed(FieldValue(q.text, key).value)
    ensures q.empty || FieldValue(q.text, key).None? ==> r == ""
    ensures !q.empty && FieldValue(q.text, key).Some? ==> r == Decode(FieldValue(q.text, key).value)
  {
    if q.empty then ""
    else match FieldValue(q.text, key)
      case None => ""
      case Some(v) => Decode(v)
  }

  /** Reading a serialized query back gives the first value paired with each name. */
  lemma GetFieldSerialize(pairs: seq<(string, string)>, key: string)
    requires Serializable(pairs)
    ensures var q := Query(false, Serialize(pairs));
      FieldValue(q.text, key).Some? ==> WellFormed(FieldValue(q.text, key).value)
    ensures var q := Query(false, Serialize(pairs));
      GetField(q, key) == (if Lookup(pairs, key).Some? then Lookup(pairs, key).value else "")
  {
    FieldValueSerialize(pairs, key);
    if Lookup(pairs, key).Some? {
      DecodeEncode(Lookup(pairs, key).value);
    }
  }

  /** A query with the piece "xssid=a" in front of "ssid=b". */
  lemma SerializedExample(pairs: seq<(string, string)>)
    requires pairs == [("xssid", "a"), ("ssid", "b")]
    ensures Serializable(pairs)
    ensures Serialize(pairs) == "xssid=a&ssid=b"
    ensures Lookup(pairs, "ssid") == Some("b")
  {
    assert PlainName("xssid") && PlainName("ssid");
    assert Encode("a") == "a" && Encode("b") == "b" by {
      assert Encode("a") == EncodeByte('a') + Encode("");
      assert Encode("b") == EncodeByte('b') + Encode("");
    }
    assert pairs[0].0 != "ssid";
    assert pairs[1..] == [("ssid", "b")];
    assert Serialize(pairs[1..]) == "ssid=b";
  }

  /** The range `get` decodes in the example starts inside the piece "xssid=a". */
  lemma ExampleRange(s: string)
    requires s == "xssid=a&ssid=b"
    ensures WellFormed(s) ==> ValueDecodable(s, "ssid")
    ensures ValueStart(s, "ssid", 6) && ValueEnd(s, 6, 7) && s[6..7] == "a"
  {
    if WellFormed(s) {
      WellFormedDecodable(s, "ssid");
    }
    assert s[1..6] == "ssid=";
    assert s[0..5] != "ssid=" by { assert s[0] == 'x'; }
  }

  lemma ExampleGet(s: string)
    requires s == "xssid=a&ssid=b" && WellFormed(s)
    ensures ValueDecodable(s, "ssid") && Get(Query(false, s), "ssid") == "a"
  {
    ExampleRange(s);
    DecodeKeeps("a");
  }

  /** `get` finds "ssid=" inside the piece named "xssid" and returns that piece's
      value, where the piece named "ssid" holds "b". */
  lemma GetMatchesInsideName(s: string, pairs: seq<(string, string)>)
    requires s == "xssid=a&ssid=b" && pairs == [("xssid", "a"), ("ssid", "b")]
    ensures Serializable(pairs) && s == Serialize(pairs) && WellFormed(s)
    ensures ValueDecodable(s, "ssid")
    ensures Get(Query(false, s), "ssid") == "a"
    ensures GetField(Query(false, s), "ssid") == "b" && Lookup(pairs, "ssid") == Some("b")
  {
    SerializedExample(pairs);
    SerializedGetField(s, pairs, "ssid");
    ExampleGet(s);
  }

  lemma SerializedGetField(s: string, pairs: seq<(string, string)>, key: string)
    requires Serializable(pairs) && s == Serialize(pairs) && Lookup(pairs, key).Some?
    ensures GetField(Query(false, s), key) == Lookup(pairs, key).value
  {
    GetFieldSerialize(pairs, key);
  }
}
