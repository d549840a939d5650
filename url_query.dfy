/** The request URL of `getTransactions`: the filter's non-empty `date` and
    `name` appended to a `URLSearchParams`, serialised as the
    application/x-www-form-urlencoded format of the WHATWG URL Standard
    (section 5.2) does, and a reference parser that inverts it. */
module UrlQuery {
  import opened Wrappers
  import opened Transactions

  type Byte = b: int | 0 <= b < 256

  /** One name/value pair of a query, in insertion order. */
  type Param = (string, string)

  const ApiBaseUrl: string := "http://localhost:8000/api"

  /** The pairs `getTransactions` appends: `date` first, then `name`, each
      only when the filter exists and the value is a non-empty string. */
  function QueryParams(filter: Option<TransactionFilter>): (ps: seq<Param>)
  {
    (if filter.Some? && Given(filter.value.date) then [("date", filter.value.date.value)] else [])
    + (if filter.Some? && Given(filter.value.name) then [("name", filter.value.name.value)] else [])
  }

  /** `date` is sent exactly when the filter gives a non-empty date, `name`
      exactly when it gives a non-empty name, each with the filter's value
      and `date` ahead of `name`; nothing else is sent. */
  lemma QueryParamsSpec(filter: Option<TransactionFilter>)
    ensures |QueryParams(filter)| ==
              (if filter.Some? && Given(filter.value.date) then 1 else 0)
              + (if filter.Some? && Given(filter.value.name) then 1 else 0)
    ensures forall i :: 0 <= i < |QueryParams(filter)| ==>
              (QueryParams(filter)[i].0 == "date" || QueryParams(filter)[i].0 == "name")
    ensures (filter.Some? && Given(filter.value.date)) <==> (exists i :: 0 <= i < |QueryParams(filter)| && QueryParams(filter)[i].0 == "date")
    ensures (filter.Some? && Given(filter.value.name)) <==> (exists i :: 0 <= i < |QueryParams(filter)| && QueryParams(filter)[i].0 == "name")
    ensures forall i :: 0 <= i < |QueryParams(filter)| && QueryParams(filter)[i].0 == "date" ==>
              filter.Some? && QueryParams(filter)[i].1 == filter.value.date.value
    ensures forall i :: 0 <= i < |QueryParams(filter)| && QueryParams(filter)[i].0 == "name" ==>
              filter.Some? && QueryParams(filter)[i].1 == filter.value.name.value
    ensures forall i, j ::
              (0 <= i < |QueryParams(filter)| && 0 <= j < |QueryParams(filter)| &&
               QueryParams(filter)[i].0 == "date" && QueryParams(filter)[j].0 == "name") ==> i < j
  {
    var ps := QueryParams(filter);
    if filter.Some? && Given(filter.value.date) {
      assert ps[0].0 == "date";
    }
    if filter.Some? && Given(filter.value.name) {
      assert ps[|ps| - 1].0 == "name";
    }
  }

  // ---- Serialisation ----------------------------------------------------

  /** The code points the urlencoded serializer copies unchanged. */
  predicate IsUnreserved(c: char)
  {
    ('a' <= c <= 'z') || ('A' <= c <= 'Z') || ('0' <= c <= '9')
    || c == '*' || c == '-' || c == '.' || c == '_'
  }

  /** UTF-8 encoding of one Unicode scalar value. */
  function Utf8(c: char): (bs: seq<Byte>)
    ensures 1 <= |bs| <= 4
  {
    var n := c as int;
    if n < 0x80 then [n]
    else if n < 0x800 then [0xC0 + n / 64, 0x80 + n % 64]
    else if n < 0x1_0000 then
      var q := n / 64;
      [0xE0 + q / 64, 0x80 + q % 64, 0x80 + n % 64]
    else
      var q := n / 64;
      var q2 := q / 64;
      [0xF0 + q2 / 64, 0x80 + q2 % 64, 0x80 + q % 64, 0x80 + n % 64]
  }

  /** Upper-case hexadecimal digit. */
  function HexDigit(d: int): (c: char)
    requires 0 <= d < 16
    ensures IsUnreserved(c)
  {
    if d < 10 then ('0' as int + d) as char else ('A' as int + d - 10) as char
  }

  /** `%XX` for each byte. */
  function PercentEncode(bs: seq<Byte>): (s: string)
    ensures |s| == 3 * |bs|
    ensures forall i :: 0 <= i < |s| ==> s[i] == '%' || IsUnreserved(s[i])
  {
    if bs == [] then [] else ['%', HexDigit(bs[0] / 16), HexDigit(bs[0] % 16)] + PercentEncode(bs[1..])
  }

  /** One code point: kept, a space as `+`, anything else percent-encoded. */
  function EncodeChar(c: char): (s: string)
    ensures |s| > 0
    ensures forall i :: 0 <= i < |s| ==> IsEncodedChar(s[i])
  {
    if IsUnreserved(c) then [c] else if c == ' ' then "+" else PercentEncode(Utf8(c))
  }

  /** The characters an encoded component is made of; `&` and `=` are not
      among them. */
  predicate IsEncodedChar(c: char)
  {
    IsUnreserved(c) || c == '+' || c == '%'
  }

  function EncodeComponent(s: string): (r: string)
    ensures forall i :: 0 <= i < |r| ==> IsEncodedChar(r[i])
  {
    if s == [] then [] else EncodeChar(s[0]) + EncodeComponent(s[1..])
  }

  function SerializeParam(p: Param): string
  {
    EncodeComponent(p.0) + "=" + EncodeComponent(p.1)
  }

  /** `URLSearchParams.toString()`: the pairs joined by `&`. */
  function Serialize(ps: seq<Param>): string
  {
    if ps == [] then ""
    else if |ps| == 1 then SerializeParam(ps[0])
    else SerializeParam(ps[0]) + "&" + Serialize(ps[1..])
  }

  function QueryString(filter: Option<TransactionFilter>): string
  {
    Serialize(QueryParams(filter))
  }

  /** The URL `getTransactions` fetches. */
  function RequestUrl(filter: Option<TransactionFilter>): string
  {
    ApiBaseUrl + "/transactions?" + QueryString(filter)
  }

  // ---- The reference parser ---------------------------------------------

  function HexValue(c: char): (r: Option<int>)
    ensures r.Some? ==> 0 <= r.value < 16
  {
    if '0' <= c <= '9' then Some(c as int - '0' as int)
    else if 'A' <= c <= 'F' then Some(c as int - 'A' as int + 10)
    else if 'a' <= c <= 'f' then Some(c as int - 'a' as int + 10)
    else None
  }

  /** The first `k` `%XX` groups of `s` as bytes. */
  function PercentBytes(s: string, k: nat): (r: Option<seq<Byte>>)
    ensures r.Some? ==> |r.value| == k && 3 * k <= |s|
    decreases k
  {
    if k == 0 then Some([])
    else if |s| < 3 || s[0] != '%' || HexValue(s[1]).None? || HexValue(s[2]).None? then None
    else match PercentBytes(s[3..], k - 1)
      case None => None
      case Some(rest) => Some([HexValue(s[1]).value * 16 + HexValue(s[2]).value] + rest)
  }

  /** The length of the UTF-8 sequence a lead byte announces; 0 if it is none. */
  function Utf8Length(b: Byte): nat
  {
    if b < 0x80 then 1
    else if 0xC0 <= b < 0xE0 then 2
    else if 0xE0 <= b < 0xF0 then 3
    else if 0xF0 <= b < 0xF8 then 4
    else 0
  }

  predicate IsContinuation(b: Byte) { 0x80 <= b < 0xC0 }

  /** The code point a UTF-8 sequence encodes. */
  function Utf8Value(bs: seq<Byte>): int
    requires 1 <= |bs| <= 4
  {
    var b: seq<int> := bs;
    if |b| == 1 then b[0]
    else if |b| == 2 then (b[0] - 0xC0) * 64 + (b[1] - 0x80)
    else if |b| == 3 then ((b[0] - 0xE0) * 64 + (b[1] - 0x80)) * 64 + (b[2] - 0x80)
    else (((b[0] - 0xF0) * 64 + (b[1] - 0x80)) * 64 + (b[2] - 0x80)) * 64 + (b[3] - 0x80)
  }

  predicate IsScalarValue(n: int)
  {
    (0 <= n < 0xD800) || (0xE000 <= n < 0x11_0000)
  }

  /** Decodes the first code point of a component and says how many
      characters it took. */
  function DecodeChar(s: string): (r: Option<(char, nat)>)
    requires s != []
    ensures r.Some? ==> 0 < r.value.1 <= |s|
  {
    if s[0] == '+' then Some((' ', 1))
    else if s[0] != '%' then Some((s[0], 1))
    else match PercentBytes(s, 1)
      case None => None
      case Some(lead) =>
        var len := Utf8Length(lead[0]);
        if len == 0 then None
        else match PercentBytes(s, len)
          case None => None
          case Some(bs) =>
            if (forall i :: 1 <= i < len ==> IsContinuation(bs[i])) && IsScalarValue(Utf8Value(bs))
            then Some((Utf8Value(bs) as char, 3 * len))
            else None
  }

  function DecodeComponent(s: string): Option<string>
    decreases |s|
  {
    if s == [] then Some([])
    else match DecodeChar(s)
      case None => None
      case Some(step) =>
        match DecodeComponent(s[step.1..])
        case None => None
        case Some(rest) => Some([step.0] + rest)
  }

  /** `s` cut at every `sep`; always at least one part. */
  function Split(s: string, sep: char): (parts: seq<string>)
    ensures |parts| >= 1
  {
    if s == [] then [""]
    else
      var rest := Split(s[1..], sep);
      if s[0] == sep then [""] + rest else [[s[0]] + rest[0]] + rest[1..]
  }

  /** The index of the first `c` in `s`. */
  function IndexOf(s: string, c: char): (r: Option<nat>)
    ensures r.Some? ==> r.value < |s| && s[r.value] == c && c !in s[..r.value]
    ensures r.None? ==> c !in s
  {
    if s == [] then None
    else if s[0] == c then Some(0)
    else match IndexOf(s[1..], c)
      case None => None
      case Some(k) =>
        assert s[..k + 1] == [s[0]] + s[1..][..k];
        Some(k + 1)
  }

  /** A `name=value` segment; without `=` the whole segment is the name and
      the value is empty. */
  function ParseParam(seg: string): Option<Param>
  {
    match IndexOf(seg, '=')
    case None =>
      (match DecodeComponent(seg)
       case None => None
       case Some(name) => Some((name, "")))
    case Some(k) =>
      match DecodeComponent(seg[..k])
      case None => None
      case Some(name) =>
        match DecodeComponent(seg[k + 1..])
        case None => None
        case Some(value) => Some((name, value))
  }

  /** The segments in order, empty ones skipped. */
  function ParseParams(segs: seq<string>): Option<seq<Param>>
  {
    if segs == [] then Some([])
    else if segs[0] == "" then ParseParams(segs[1..])
    else match ParseParam(segs[0])
      case None => None
      case Some(p) =>
        match ParseParams(segs[1..])
        case None => None
        case Some(ps) => Some([p] + ps)
  }

  function Parse(query: string): Option<seq<Param>>
  {
    ParseParams(Split(query, '&'))
  }

  // ---- Round trip ---------------------------------------------------------

  lemma HexRoundTrip(d: int)
    requires 0 <= d < 16
    ensures HexValue(HexDigit(d)) == Some(d)
  {
  }

  lemma {:induction false} PercentBytesPrefix(bs: seq<Byte>, rest: string, k: nat)
    requires k <= |bs|
    ensures PercentBytes(PercentEncode(bs) + rest, k) == Some(bs[..k])
    decreases k
  {
    if k > 0 {
      var s := PercentEncode(bs) + rest;
      var b := bs[0];
      HexRoundTrip(b / 16);
      HexRoundTrip(b % 16);
      assert s[0] == '%' && s[1] == HexDigit(b / 16) && s[2] == HexDigit(b % 16);
      assert s[3..] == PercentEncode(bs[1..]) + rest;
      PercentBytesPrefix(bs[1..], rest, k - 1);
      assert bs[..k] == [b] + bs[1..][..k - 1];
    }
  }

  /** The decoder's view of `Utf8(c)`: the lead byte announces the right
      length, the rest are continuation bytes, and the value is `c`. */
  lemma Utf8Decodes(c: char)
    ensures Utf8Length(Utf8(c)[0]) == |Utf8(c)|
    ensures forall i :: 1 <= i < |Utf8(c)| ==> IsContinuation(Utf8(c)[i])
    ensures Utf8Value(Utf8(c)) == c as int
  {
    var n := c as int;
    if n >= 0x800 {
      var q := n / 64;
      assert n == q * 64 + n % 64;
      assert q == (q / 64) * 64 + q % 64;
      if n >= 0x1_0000 {
        var q2 := q / 64;
        assert q2 == (q2 / 64) * 64 + q2 % 64;
      }
    }
  }

  lemma DecodeCharOfEncoded(c: char, rest: string)
    ensures DecodeChar(EncodeChar(c) + rest) == Some((c, |EncodeChar(c)|))
  {
    var s := EncodeChar(c) + rest;
    if !IsUnreserved(c) && c != ' ' {
      var bs := Utf8(c);
      PercentBytesPrefix(bs, rest, 1);
      PercentBytesPrefix(bs, rest, |bs|);
      assert bs[..1] == [bs[0]];
      assert bs[..|bs|] == bs;
      Utf8Decodes(c);
    }
  }

  /** Decoding undoes encoding, for every string. */
  lemma {:induction false} DecodeEncode(s: string)
    ensures DecodeComponent(EncodeComponent(s)) == Some(s)
  {
    if s != [] {
      var e := EncodeComponent(s);
      DecodeCharOfEncoded(s[0], EncodeComponent(s[1..]));
      assert e[|EncodeChar(s[0])|..] == EncodeComponent(s[1..]);
      DecodeEncode(s[1..]);
      assert s == [s[0]] + s[1..];
    }
  }

  lemma {:induction false} SplitWithout(a: string, sep: char)
    requires sep !in a
    ensures Split(a, sep) == [a]
  {
    if a != [] {
      SplitWithout(a[1..], sep);
      assert a == [a[0]] + a[1..];
    }
  }

  lemma {:induction false} SplitAt(a: string, sep: char, b: string)
    requires sep !in a
    ensures Split(a + [sep] + b, sep) == [a] + Split(b, sep)
  {
    var s := a + [sep] + b;
    if a == [] {
      assert s[1..] == b;
    } else {
      assert s[1..] == a[1..] + [sep] + b;
      SplitAt(a[1..], sep, b);
      assert a == [a[0]] + a[1..];
    }
  }

  lemma {:induction false} IndexOfAt(a: string, c: char, b: string)
    requires c !in a
    ensures IndexOf(a + [c] + b, c) == Some(|a|)
  {
    if a != [] {
      assert (a + [c] + b)[1..] == a[1..] + [c] + b;
      IndexOfAt(a[1..], c, b);
    }
  }

  lemma SerializeParamShape(p: Param)
    ensures '&' !in SerializeParam(p) && SerializeParam(p) != ""
  {
    var a, b := EncodeComponent(p.0), EncodeComponent(p.1);
    assert SerializeParam(p) == a + "=" + b;
    assert '&' !in a && '&' !in b;
  }

  lemma ParseSerializeParam(p: Param)
    ensures ParseParam(SerializeParam(p)) == Some(p)
  {
    var a, b := EncodeComponent(p.0), EncodeComponent(p.1);
    var seg := SerializeParam(p);
    assert seg == a + ['='] + b;
    assert '=' !in a;
    IndexOfAt(a, '=', b);
    assert seg[..|a|] == a && seg[|a| + 1..] == b;
    DecodeEncode(p.0);
    DecodeEncode(p.1);
  }

  /** The segments `Serialize` produces, one per pair. */
  function SerializedParams(ps: seq<Param>): (segs: seq<string>)
    ensures |segs| == |ps|
  {
    if ps == [] then [] else [SerializeParam(ps[0])] + SerializedParams(ps[1..])
  }

  lemma {:induction false} SplitSerialize(ps: seq<Param>)
    requires ps != []
    ensures Split(Serialize(ps), '&') == SerializedParams(ps)
  {
    SerializeParamShape(ps[0]);
    if |ps| == 1 {
      SplitWithout(SerializeParam(ps[0]), '&');
    } else {
      SplitAt(SerializeParam(ps[0]), '&', Serialize(ps[1..]));
      SplitSerialize(ps[1..]);
    }
  }

  lemma {:induction false} ParseSerializedParams(ps: seq<Param>)
    ensures ParseParams(SerializedParams(ps)) == Some(ps)
  {
    if ps != [] {
      SerializeParamShape(ps[0]);
      ParseSerializeParam(ps[0]);
      ParseSerializedParams(ps[1..]);
      assert ps == [ps[0]] + ps[1..];
    }
  }

  /** Parsing a serialised query gives back exactly its pairs, in order. */
  lemma ParseSerialize(ps: seq<Param>)
    ensures Parse(Serialize(ps)) == Some(ps)
  {
    if ps == [] {
      assert Split("", '&') == [""];
    } else {
      SplitSerialize(ps);
      ParseSerializedParams(ps);
    }
  }

  /** The query string of a filter carries exactly the pairs of
      `QueryParams`: `date` before `name`, each only when given. */
  lemma QueryStringRoundTrip(filter: Option<TransactionFilter>)
    ensures Parse(QueryString(filter)) == Some(QueryParams(filter))
  {
    ParseSerialize(QueryParams(filter));
  }

  /** Without a non-empty date or name the query string is empty (the URL
      ends in `?`). */
  lemma EmptyQueryString(filter: Option<TransactionFilter>)
    requires filter.None? || (!Given(filter.value.date) && !Given(filter.value.name))
    ensures QueryString(filter) == ""
    ensures RequestUrl(filter) == ApiBaseUrl + "/transactions?"
  {
  }
}
