/**
 * Request.java: the request a handler sees (its URI, body and lower-cased header
 * map), the helpers that read query parameters, headers, form bodies and a single
 * JSON field, and the Builder that assembles it.
 */
module Requests {
  import opened Wrappers
  import opened Text
  import opened UrlDecoding

  /** What the server reads of a java.net.URI: getPath() and getQuery(), which are
      null (None) for URIs without a path or without a query. */
  datatype Uri = Uri(path: Option<string>, query: Option<string>)

  /** A key=value item split at its first '=': the decoded key and value, or both as
      written when URLDecoder throws on either; a missing value is "". */
  function DecodedPair(param: string): (string, string) {
    var (k, v) := SplitOnce(param, '=');
    var raw := (k, v.GetOr(""));
    match UrlDecode(k)
    case None => raw
    case Some(dk) =>
      match v
      case None => (dk, "")
      case Some(x) =>
        match UrlDecode(x)
        case None => raw
        case Some(dx) => (dk, dx)
  }

  /** The map that putting the pairs one after another into a HashMap leaves. */
  function PairsMap(params: seq<string>): map<string, string> {
    if params == [] then map[]
    else
      var (k, v) := DecodedPair(params[|params| - 1]);
      PairsMap(params[..|params| - 1])[k := v]
  }

  /** The value getQueryParam returns for a pair whose key matched. */
  function MatchedValue(v: Option<string>): string {
    match v
    case None => ""
    case Some(x) => UrlDecode(x).GetOr(x)
  }

  /** getQueryParam's search: the value of the first pair whose undecoded key is key. */
  function FirstMatch(params: seq<string>, key: string): Option<string> {
    if params == [] then None
    else
      var (k, v) := SplitOnce(params[0], '=');
      if k == key then Some(MatchedValue(v)) else FirstMatch(params[1..], key)
  }

  /** The key part of an item, undecoded, as getQueryParam compares it. */
  function KeyOf(param: string): string {
    SplitOnce(param, '=').0
  }

  /** FirstMatch finds nothing exactly when no item has the key, and otherwise finds
      the value of the first item that has it. */
  lemma {:induction false} FirstMatchIsFirst(params: seq<string>, key: string)
    ensures FirstMatch(params, key).None? <==> forall i :: 0 <= i < |params| ==> KeyOf(params[i]) != key
    ensures FirstMatch(params, key).Some? ==>
              exists i :: 0 <= i < |params| && KeyOf(params[i]) == key
                && (forall j :: 0 <= j < i ==> KeyOf(params[j]) != key)
                && FirstMatch(params, key).value == MatchedValue(SplitOnce(params[i], '=').1)
  {
    if params != [] && KeyOf(params[0]) != key {
      FirstMatchIsFirst(params[1..], key);
      assert forall i :: 1 <= i < |params| ==> params[i] == params[1..][i - 1];
      if FirstMatch(params[1..], key).Some? {
        var i :| 0 <= i < |params[1..]| && KeyOf(params[1..][i]) == key
                 && (forall j :: 0 <= j < i ==> KeyOf(params[1..][j]) != key)
                 && FirstMatch(params, key).value == MatchedValue(SplitOnce(params[1..][i], '=').1);
        assert KeyOf(params[i + 1]) == key;
      }
    }
  }

  /** Reads a single JSON string field the way the regular expression
      "key"\s*:\s*"([^"]+)" does, with the key taken literally: the value of a
      match that starts at p, if one does. */
  function JsonMatchAt(s: string, key: string, p: nat): (r: Option<string>)
    requires p <= |s|
    ensures r.Some? ==> r.value != [] && '"' !in r.value
  {
    var pat := "\"" + key + "\"";
    if !(p + |pat| <= |s| && s[p..p + |pat|] == pat) then None
    else
      var i := SkipSpaces(s, p + |pat|);
      if !(i < |s| && s[i] == ':') then None
      else
        var j := SkipSpaces(s, i + 1);
        if !(j < |s| && s[j] == '"') then None
        else
          var e := QuoteAt(s, j + 1);
          if e > j + 1 && e < |s| then Some(s[j + 1..e]) else None
  }

  /** The index after the run of \s chars that starts at i. */
  function SkipSpaces(s: string, i: nat): (e: nat)
    requires i <= |s|
    ensures i <= e <= |s|
    ensures forall k :: i <= k < e ==> IsRegexSpace(s[k])
    ensures e < |s| ==> !IsRegexSpace(s[e])
    decreases |s| - i
  {
    if i < |s| && IsRegexSpace(s[i]) then SkipSpaces(s, i + 1) else i
  }

  /** The index of the first '"' at or after i, or |s|. */
  function QuoteAt(s: string, i: nat): (e: nat)
    requires i <= |s|
    ensures i <= e <= |s|
    ensures forall k :: i <= k < e ==> s[k] != '"'
    ensures e < |s| ==> s[e] == '"'
    decreases |s| - i
  {
    if i < |s| && s[i] != '"' then QuoteAt(s, i + 1) else i
  }

  /** Matcher.find from p, then group(1): the leftmost match at or after p. */
  function JsonFind(s: string, key: string, p: nat): (r: Option<string>)
    requires p <= |s|
    ensures r.None? ==> forall q :: p <= q <= |s| ==> JsonMatchAt(s, key, q).None?
    ensures r.Some? ==>
              exists q :: p <= q <= |s| && JsonMatchAt(s, key, q) == r
                          && (forall q' :: p <= q' < q ==> JsonMatchAt(s, key, q').None?)
    decreases |s| - p
  {
    var m := JsonMatchAt(s, key, p);
    if m.Some? then m
    else if p == |s| then None
    else JsonFind(s, key, p + 1)
  }

  datatype Request = Request(uri: Uri, body: string, headers: map<string, string>)
  {
    /** getPath. */
    function Path(): Option<string> {
      uri.path
    }

    /** The items of the query, as query.split("&") gives them. */
    function QueryItems(): seq<string>
      requires uri.query.Some?
    {
      Split(uri.query.value, '&')
    }

    /** getQueryParam, as specified: None without a query or without a pair whose key
        is key; otherwise the decoded value of the first such pair, the value as written
        when it does not decode, or "" when the pair has no '='. */
    function QueryParam(key: string): Option<string> {
      if uri.query.None? then None else FirstMatch(QueryItems(), key)
    }

    /** getQueryParam: the loop over the items that returns at the first match. */
    method GetQueryParam(key: string) returns (r: Option<string>)
      ensures r == QueryParam(key)
    {
      if uri.query.None? {
        return None;
      }
      var params := Split(uri.query.value, '&');
      for i := 0 to |params|
        invariant FirstMatch(params, key) == FirstMatch(params[i..], key)
      {
        var (k, v) := SplitOnce(params[i], '=');
        if k == key {
          match v {
            case None => return Some("");
            case Some(x) =>
              match UrlDecode(x) {
                case None => return Some(x);
                case Some(d) => return Some(d);
              }
          }
        }
        assert params[i..][1..] == params[i + 1..];
      }
      return None;
    }

    /** getQueryParams: every item of the query put into a map, later items winning. */
    method GetQueryParams() returns (m: map<string, string>)
      ensures uri.query.None? ==> m == map[]
      ensures uri.query.Some? ==> m == PairsMap(QueryItems())
    {
      if uri.query.None? {
        return map[];
      }
      m := PutPairs(Split(uri.query.value, '&'));
    }

    /** hasBody: the body has a char above U+0020, i.e. it is not blank after trim. */
    predicate HasBody()
    {
      Trim(body) != []
    }

    /** getHeader: looked up under the lower-cased name. */
    function GetHeader(name: string): Option<string> {
      var k := ToLower(name);
      if k in headers then Some(headers[k]) else None
    }

    /** hasHeader. */
    predicate HasHeader(name: string) {
      ToLower(name) in headers
    }

    /** getContentType. */
    function ContentType(): Option<string> {
      GetHeader("content-type")
    }

    /** getContentLength: the parsed content-length header, or 0 when it is missing or
        is not an int. */
    function ContentLength(): (r: int)
      ensures IsInt32(r)
      ensures GetHeader("content-length").None? ==> r == 0
      ensures GetHeader("content-length").Some? ==>
                r == ParseInt(GetHeader("content-length").value).GetOr(0)
    {
      match GetHeader("content-length")
      case None => 0
      case Some(s) => ParseInt(s).GetOr(0)
    }

    /** isJson: the content type mentions application/json, in any case. */
    predicate IsJson() {
      ContentType().Some? && Contains(ToLower(ContentType().value), "application/json")
    }

    /** isFormData: the content type mentions application/x-www-form-urlencoded. */
    predicate IsFormData() {
      ContentType().Some?
      && Contains(ToLower(ContentType().value), "application/x-www-form-urlencoded")
    }

    /** getFormData, as specified. */
    function FormData(): map<string, string> {
      if HasBody() && IsFormData() then PairsMap(Split(body, '&')) else map[]
    }

    /** getFormData: the items of an url-encoded body put into a map. */
    method GetFormData() returns (m: map<string, string>)
      ensures m == FormData()
      ensures m != map[] ==> HasBody() && IsFormData()
    {
      m := map[];
      if !HasBody() {
        return m;
      }
      var contentType := ContentType();
      if contentType.Some? && Contains(ToLower(contentType.value), "application/x-www-form-urlencoded") {
        m := PutPairs(Split(body, '&'));
      }
    }

    /** getJsonValue: null unless the body is not blank and is JSON; otherwise the
        first "key" : "value" match, whose value is non-empty and has no quote. */
    function JsonValue(key: string): (r: Option<string>)
      ensures r.Some? ==> HasBody() && IsJson()
      ensures r.Some? ==> r.value != [] && '"' !in r.value
      ensures r.Some? ==>
                exists p :: 0 <= p <= |body| && JsonMatchAt(body, key, p) == r
                            && (forall q :: 0 <= q < p ==> JsonMatchAt(body, key, q).None?)
    {
      if !HasBody() || !IsJson() then None else JsonFind(body, key, 0)
    }
  }

  /** The loop getQueryParams and getFormData share: split each item at its first '=',
      decode it, and put it into the map. */
  method PutPairs(params: seq<string>) returns (m: map<string, string>)
    ensures m == PairsMap(params)
  {
    m := map[];
    for i := 0 to |params|
      invariant m == PairsMap(params[..i])
    {
      var (k, v) := SplitOnce(params[i], '=');
      var key, value;
      match UrlDecode(k) {
        case None =>
          key, value := k, v.GetOr("");
        case Some(dk) =>
          match v {
            case None =>
              key, value := dk, "";
            case Some(x) =>
              match UrlDecode(x) {
                case None => key, value := k, x;
                case Some(dx) => key, value := dk, dx;
              }
          }
      }
      assert params[..i + 1][..i] == params[..i];
      m := m[key := value];
    }
    assert params[..|params|] == params;
  }

  /** Request.Builder. */
  class RequestBuilder {
    var uri: Option<Uri>
    var body: Option<string>
    var headers: Option<map<string, string>>

    constructor()
      ensures uri.None? && body.None? && headers.None?
    {
      uri := None;
      body := None;
      headers := None;
    }

    method WithUri(uri: Uri)
      modifies this
      ensures this.uri == Some(uri)
      ensures body == old(body) && headers == old(headers)
    {
      this.uri := Some(uri);
    }

    method WithBody(body: string)
      modifies this
      ensures this.body == Some(body)
      ensures uri == old(uri) && headers == old(headers)
    {
      this.body := Some(body);
    }

    /** withHeaders: a fresh map holding every entry under its lower-cased name. When
        two names lower-case alike, the one the map's iteration reaches last wins, so
        the model lets either win. */
    method WithHeaders(m: map<string, string>)
      modifies this
      ensures uri == old(uri) && body == old(body)
      ensures headers.Some?
      ensures forall k0 :: k0 in m ==> ToLower(k0) in headers.value
      ensures forall k :: k in headers.value ==>
                exists k0 :: k0 in m && ToLower(k0) == k && m[k0] == headers.value[k]
    {
      var result := map[];
      var rest := m.Keys;
      while rest != {}
        invariant rest <= m.Keys
        invariant forall k0 :: k0 in m && k0 !in rest ==> ToLower(k0) in result
        invariant forall k :: k in result ==>
                    exists k0 :: k0 in m && ToLower(k0) == k && m[k0] == result[k]
        decreases |rest|
      {
        var k0 :| k0 in rest;
        result := result[ToLower(k0) := m[k0]];
        rest := rest - {k0};
      }
      headers := Some(result);
    }

    /** withHeader: put under the lower-cased name, creating the map if need be. */
    method WithHeader(name: string, value: string)
      modifies this
      ensures uri == old(uri) && body == old(body)
      ensures headers == Some(old(headers).GetOr(map[])[ToLower(name) := value])
    {
      if headers.None? {
        headers := Some(map[]);
      }
      headers := Some(headers.value[ToLower(name) := value]);
    }

    /** build: IllegalStateException without a URI; otherwise a request whose body is
        "" when none was given and whose headers are a copy of the builder's map. */
    method Build() returns (r: Outcome<Request>)
      ensures uri.None? ==> r == Threw(IllegalStateException)
      ensures uri.Some? ==> r == Returned(Request(uri.value, body.GetOr(""), headers.GetOr(map[])))
    {
      if uri.None? {
        return Threw(IllegalStateException);
      }
      r := Returned(Request(uri.value, body.GetOr(""), headers.GetOr(map[])));
    }
  }

  // ------------------------------------------------------------------
  // Properties of the request helpers
  // ------------------------------------------------------------------

  /** hasBody is false exactly when every char of the body is at or below U+0020. */
  lemma HasBodyIff(r: Request)
    ensures r.HasBody() <==> exists i :: 0 <= i < |r.body| && !IsTrimmed(r.body[i])
  {
    TrimEmptyIff(r.body);
  }

  /** In the map the items leave, a key is present exactly when some item decodes to
      it. */
  lemma {:induction false} PairsMapKeys(params: seq<string>, k: string)
    ensures k in PairsMap(params) <==> exists i :: 0 <= i < |params| && DecodedPair(params[i]).0 == k
  {
    if params != [] {
      var n := |params| - 1;
      var init := params[..n];
      PairsMapKeys(init, k);
      assert forall i :: 0 <= i < n ==> init[i] == params[i];
      if DecodedPair(params[n]).0 != k && k in PairsMap(params) {
        var i :| 0 <= i < n && DecodedPair(init[i]).0 == k;
        assert DecodedPair(params[i]).0 == k;
      }
    }
  }

  /** A later item with the same decoded key overwrites an earlier one: the key holds
      the value of the last item that decodes to it. */
  lemma {:induction false} PairsMapLastWins(params: seq<string>, i: nat)
    requires i < |params|
    requires forall j :: i < j < |params| ==> DecodedPair(params[j]).0 != DecodedPair(params[i]).0
    ensures DecodedPair(params[i]).0 in PairsMap(params)
    ensures PairsMap(params)[DecodedPair(params[i]).0] == DecodedPair(params[i]).1
  {
    var n := |params| - 1;
    if i < n {
      var init := params[..n];
      assert init[i] == params[i];
      assert forall j :: i < j < n ==> init[j] == params[j];
      PairsMapLastWins(init, i);
    }
  }

  /** A query made of one key=value item, with nothing in either that needs decoding,
      yields the value for the key. */
  lemma QueryParamOfSingleItem(uri: Uri, key: string, value: string, body: string, h: map<string, string>)
    requires uri.query == Some(key + "=" + value)
    requires '&' !in key && '=' !in key && '&' !in value
    requires '%' !in value && '+' !in value
    ensures Request(uri, body, h).QueryParam(key) == Some(value)
  {
    var q := key + "=" + value;
    assert q == key + ['='] + value;
    assert '&' !in q;
    var (k, v) := SplitOnce(q, '=');
    assert k == key by {
      assert q[|key|] == '=';
      SplitOnceAt(q, '=', key, value);
    }
    SplitOnceAt(q, '=', key, value);
    UrlDecodeLiteral(value);
  }

  /** Splitting at the first d of k + [d] + v, where k has no d, gives k and v. */
  lemma SplitOnceAt(s: string, d: char, k: string, v: string)
    requires s == k + [d] + v && d !in k
    ensures SplitOnce(s, d) == (k, Some(v))
  {
    assert s[|k|] == d;
    var r := SplitOnce(s, d);
    assert d in s;
    var a, b := r.0, r.1.value;
    assert s == a + [d] + b;
    assert s[|a|] == d;
    assert a == s[..|k|] == k;
    assert b == s[|k| + 1..] == v;
  }

  /** A content-length header written from an int reads back as that int. */
  lemma ContentLengthOfInt(r: Request, n: int)
    requires IsInt32(n)
    requires "content-length" in r.headers && r.headers["content-length"] == IntToString(n)
    ensures r.ContentLength() == n
  {
    assert ToLower("content-length") == "content-length";
    ParseIntToString(n);
  }

  /** A header put under a name is found under any spelling of the name that differs
      only in the case of its ASCII letters. */
  lemma GetHeaderIgnoresCase(r: Request, name: string, other: string, value: string)
    requires |other| == |name|
    requires forall i :: 0 <= i < |name| ==> LowerChar(name[i]) == LowerChar(other[i])
    ensures r.(headers := r.headers[ToLower(name) := value]).GetHeader(other) == Some(value)
    ensures r.(headers := r.headers[ToLower(name) := value]).HasHeader(other)
  {
    ToLowerIgnoresCase(name, other);
  }

  /** The body {"key": "value"} */
  function JsonObject(key: string, value: string): string {
    "{\"" + key + "\": \"" + value + "\"}"
  }

  /** The pattern matches {"key": "value"} at index 1, where the key starts. */
  lemma JsonMatchObject(key: string, value: string)
    requires value != [] && '"' !in value
    ensures |JsonObject(key, value)| > 1
    ensures JsonMatchAt(JsonObject(key, value), key, 1) == Some(value)
  {
    var s := JsonObject(key, value);
    var pat := "\"" + key + "\"";
    assert s == "{" + pat + ": \"" + value + "\"}";
    var i := 1 + |pat|;
    assert s[1..i] == pat;
    assert s[i] == ':' && s[i + 1] == ' ' && s[i + 2] == '"';
    assert SkipSpaces(s, i) == i;
    assert SkipSpaces(s, i + 2) == i + 2;
    assert SkipSpaces(s, i + 1) == i + 2;
    var j := i + 2;
    var e := j + 1 + |value|;
    assert s[j + 1..e] == value;
    assert s[e] == '"';
    assert forall t :: j + 1 <= t < e ==> s[t] == value[t - j - 1];
    assert QuoteAt(s, j + 1) == e;
  }

  /** getJsonValue reads back the value of a one-field JSON object, when the value is
      not empty and has no quote and the request says it is JSON. */
  lemma JsonValueOfObject(r: Request, key: string, value: string)
    requires r.IsJson()
    requires r.body == JsonObject(key, value)
    requires value != [] && '"' !in value
    ensures r.JsonValue(key) == Some(value)
  {
    var s := r.body;
    assert r.HasBody() by {
      assert s[0] == '{';
      HasBodyIff(r);
      assert !IsTrimmed(s[0]);
    }
    JsonFindObject(key, value);
  }

  /** The leftmost match in {"key": "value"} is the one at index 1. */
  lemma JsonFindObject(key: string, value: string)
    requires value != [] && '"' !in value
    ensures JsonFind(JsonObject(key, value), key, 0) == Some(value)
  {
    var s := JsonObject(key, value);
    JsonMatchObject(key, value);
    assert s[0] == '{';
    assert JsonMatchAt(s, key, 0).None?;
    assert JsonFind(s, key, 1) == Some(value);
  }

  /** withHeaders leaves a map whose names are all lower-case exactly as it was. */
  lemma WithHeadersOfLowerCase(m: map<string, string>, result: map<string, string>)
    requires forall k0 :: k0 in m ==> ToLower(k0) == k0
    requires forall k0 :: k0 in m ==> ToLower(k0) in result
    requires forall k :: k in result ==>
               exists k0 :: k0 in m && ToLower(k0) == k && m[k0] == result[k]
    ensures result == m
  {
    forall k | k in result ensures k in m && result[k] == m[k] {
      var k0 :| k0 in m && ToLower(k0) == k && m[k0] == result[k];
    }
    assert result.Keys == m.Keys;
  }
}
