/** The pure parts of zhenbaimeng.py: reading the cookie header into a
    dictionary, turning the sign-in response into a message, and the
    random start delay.  The HTTP session, the response body's decoding and
    `time.sleep` are not modelled; the response arrives as a JSON value. */
module SignIn {
  import opened Results
  import opened Text

  // ---------------------------------------------------------------------
  // The cookie header

  /** `IndexError` from `item.split("=", 1)[1]`: some item has no '='. */
  datatype CookieError = IndexOutOfRange

  /** One `k=v` item, cut at its first '='. */
  function ParseItem(item: string): (r: Result<(string, string), CookieError>)
    ensures r.Ok? <==> !Free(item, "=")
    ensures r.Ok? ==> r.value.0 + "=" + r.value.1 == item && Free(r.value.0, "=")
  {
    var parts := SplitOnce(item, "=");
    if |parts| == 1 then Err(IndexOutOfRange) else Ok((parts[0], parts[1]))
  }

  /** The items in order; any item without '=' raises. */
  function ParseItems(items: seq<string>): (r: Result<seq<(string, string)>, CookieError>)
    ensures r.Ok? <==> forall i :: 0 <= i < |items| ==> ParseItem(items[i]).Ok?
    ensures r.Ok? ==> |r.value| == |items|
                      && forall i :: 0 <= i < |items| ==> ParseItem(items[i]) == Ok(r.value[i])
  {
    MapResult(items, ParseItem)
  }

  /** A dict comprehension over pairs: each pair stores its value under its
      key, later pairs over earlier ones. */
  function ToDict(pairs: seq<(string, string)>): (d: map<string, string>)
    ensures forall k :: k in d <==> exists i :: 0 <= i < |pairs| && pairs[i].0 == k
    decreases |pairs|
  {
    if |pairs| == 0 then map[]
    else
      var last := pairs[|pairs| - 1];
      var d := ToDict(pairs[..|pairs| - 1]);
      assert forall i :: 0 <= i < |pairs| - 1 ==> pairs[..|pairs| - 1][i] == pairs[i];
      d[last.0 := last.1]
  }

  /** `{item.split("=", 1)[0]: item.split("=", 1)[1] for item in cookies.split("; ")}` */
  function ParseCookies(header: string): (r: Result<map<string, string>, CookieError>)
    ensures r.Err? <==> exists i :: 0 <= i < |Split(header, "; ")| && Free(Split(header, "; ")[i], "=")
  {
    var items := Split(header, "; ");
    match ParseItems(items)
    case Err(e) =>
      var i :| 0 <= i < |items| && !ParseItem(items[i]).Ok?;
      assert exists j :: 0 <= j < |Split(header, "; ")| && Free(Split(header, "; ")[j], "=");
      Err(e)
    case Ok(pairs) => Ok(ToDict(pairs))
  }

  /** The header as the browser writes it: `k=v` items joined by "; ". */
  function RenderCookies(pairs: seq<(string, string)>): string {
    Join(RenderItems(pairs), "; ")
  }

  function RenderItems(pairs: seq<(string, string)>): (items: seq<string>)
    ensures |items| == |pairs|
    ensures forall i :: 0 <= i < |pairs| ==> items[i] == pairs[i].0 + "=" + pairs[i].1
  {
    seq(|pairs|, i requires 0 <= i < |pairs| => pairs[i].0 + "=" + pairs[i].1)
  }

  /** The position of the last pair holding key `k`, if any. */
  function LastWith(pairs: seq<(string, string)>, k: string): (r: Option<nat>)
    ensures r.Some? ==> r.value < |pairs| && pairs[r.value].0 == k
                        && forall j :: r.value < j < |pairs| ==> pairs[j].0 != k
    ensures r.None? ==> forall j :: 0 <= j < |pairs| ==> pairs[j].0 != k
    decreases |pairs|
  {
    if |pairs| == 0 then None
    else if pairs[|pairs| - 1].0 == k then Some(|pairs| - 1)
    else
      var r := LastWith(pairs[..|pairs| - 1], k);
      assert forall j :: 0 <= j < |pairs| - 1 ==> pairs[..|pairs| - 1][j] == pairs[j];
      r
  }

  /** With a duplicated key the value of the last item holding it wins. */
  lemma {:induction false} LaterDuplicateWins(pairs: seq<(string, string)>, k: string)
    ensures k in ToDict(pairs) <==> LastWith(pairs, k).Some?
    ensures k in ToDict(pairs) ==> ToDict(pairs)[k] == pairs[LastWith(pairs, k).value].1
    decreases |pairs|
  {
    var n := |pairs|;
    if n > 0 && pairs[n - 1].0 != k {
      var init := pairs[..n - 1];
      LaterDuplicateWins(init, k);
      assert ToDict(pairs) == ToDict(init)[pairs[n - 1].0 := pairs[n - 1].1];
      assert LastWith(pairs, k) == LastWith(init, k);
      if LastWith(init, k).Some? {
        assert pairs[LastWith(init, k).value] == init[LastWith(init, k).value];
      }
    }
  }

  /** Parsing fails exactly when some "; "-separated item has no '=';
      the empty header is one empty item and fails. */
  lemma CookieParseFails(header: string)
    ensures ParseCookies(header).Err?
            <==> exists i :: 0 <= i < |Split(header, "; ")| && Free(Split(header, "; ")[i], "=")
    ensures header == "" ==> ParseCookies(header).Err?
  {
    if header == "" {
      assert FindFrom(header, "; ", 0).None?;
      assert Split(header, "; ") == [""];
    }
  }

  /** Each value is the rest of the last item with that key after its
      first '=', '=' signs included. */
  lemma EntryFromItem(items: seq<string>, k: string)
    requires ParseItems(items).Ok? && k in ToDict(ParseItems(items).value)
    ensures var d := ToDict(ParseItems(items).value);
            exists i :: 0 <= i < |items| && items[i] == k + "=" + d[k] && Free(k, "=")
  {
    var pairs := ParseItems(items).value;
    LaterDuplicateWins(pairs, k);
    var i := LastWith(pairs, k).value;
    assert ParseItem(items[i]) == Ok(pairs[i]);
  }

  /** Every item `k=v` with no '=' in `k` puts key `k` in the dictionary. */
  lemma ItemGivesEntry(items: seq<string>, i: nat, k: string, v: string)
    requires ParseItems(items).Ok?
    requires i < |items| && items[i] == k + "=" + v && '=' !in k
    ensures k in ToDict(ParseItems(items).value)
  {
    var pairs := ParseItems(items).value;
    SplitOnceOfPair(k, "=", v);
    assert ParseItem(items[i]) == Ok(pairs[i]);
    assert pairs[i].0 == k;
  }

  /** The keys of a parsed header are the texts before the first '=' of its
      items, and each maps to the rest of the last such item. */
  lemma CookieEntries(header: string, k: string)
    requires ParseCookies(header).Ok?
    ensures k in ParseCookies(header).value ==>
              exists i :: 0 <= i < |Split(header, "; ")|
                          && Split(header, "; ")[i] == k + "=" + ParseCookies(header).value[k] && Free(k, "=")
    ensures forall i, v :: 0 <= i < |Split(header, "; ")| && Split(header, "; ")[i] == k + "=" + v && '=' !in k
              ==> k in ParseCookies(header).value
  {
    var items := Split(header, "; ");
    assert ParseCookies(header).value == ToDict(ParseItems(items).value);
    if k in ParseCookies(header).value {
      EntryFromItem(items, k);
    }
    forall i, v | 0 <= i < |items| && items[i] == k + "=" + v && '=' !in k
      ensures k in ParseCookies(header).value
    {
      ItemGivesEntry(items, i, k, v);
    }
  }

  lemma ParseRenderedItems(pairs: seq<(string, string)>)
    requires forall i :: 0 <= i < |pairs| ==> '=' !in pairs[i].0
    ensures ParseItems(RenderItems(pairs)) == Ok(pairs)
  {
    var items := RenderItems(pairs);
    forall i | 0 <= i < |items|
      ensures ParseItem(items[i]) == Ok(pairs[i])
    {
      SplitOnceOfPair(pairs[i].0, "=", pairs[i].1);
    }
    assert ParseItems(items).value == pairs;
  }

  /** Rendering pairs whose keys hold neither '=' nor ';' and whose values
      hold no ';', then parsing, gives the dictionary of those pairs. */
  lemma CookieRoundTrip(pairs: seq<(string, string)>)
    requires 1 <= |pairs|
    requires forall i :: 0 <= i < |pairs| ==> '=' !in pairs[i].0 && ';' !in pairs[i].0 && ';' !in pairs[i].1
    ensures ParseCookies(RenderCookies(pairs)) == Ok(ToDict(pairs))
  {
    var items := RenderItems(pairs);
    forall i | 0 <= i < |items|
      ensures "; "[0] !in items[i]
    {
      assert items[i] == pairs[i].0 + "=" + pairs[i].1;
    }
    SplitOfJoin(items, "; ");
    ParseRenderedItems(pairs);
  }

  // ---------------------------------------------------------------------
  // The sign-in response

  /** A decoded JSON value. */
  datatype Json =
    | JNull
    | JBool(b: bool)
    | JInt(i: int)
    | JReal(r: real)
    | JStr(s: string)
    | JArray(items: seq<Json>)
    | JObject(fields: map<string, Json>)

  /** Python's `v == n` for an integer `n`: `True == 1`, `1.0 == 1`. */
  predicate EqualsInt(v: Json, n: int) {
    match v
    case JBool(b) => (if b then 1 else 0) == n
    case JInt(i) => i == n
    case JReal(r) => r == n as real
    case _ => false
  }

  datatype SignError =
    | KeyError(key: string)   // `res["code"]` or `res["msg"]` absent
    | NotADict                // `res[...]` on a list, string, number or null
    | NotAString              // `msg + "\n\n"` on a non-string message

  const FailurePrefix: string := "签到失败，信息为："

  /** `sign`: the server's message for code 1 or -1, otherwise a failure
      text embedding the response.  `shown` is `str(res)`. */
  function Sign(res: Json, shown: string): (r: Result<Json, SignError>)
    ensures r.Ok? <==> res.JObject? && "code" in res.fields
                       && (EqualsInt(res.fields["code"], 1) || EqualsInt(res.fields["code"], -1) ==> "msg" in res.fields)
    ensures r.Ok? && (EqualsInt(res.fields["code"], 1) || EqualsInt(res.fields["code"], -1))
            ==> r.value == res.fields["msg"]
    ensures r.Ok? && !(EqualsInt(res.fields["code"], 1) || EqualsInt(res.fields["code"], -1))
            ==> r.value == JStr(FailurePrefix + shown)
    ensures r.Err? ==> r.error == (if !res.JObject? then NotADict else if "code" !in res.fields then KeyError("code") else KeyError("msg"))
  {
    match res
    case JObject(f) =>
      if "code" !in f then Err(KeyError("code"))
      else if EqualsInt(f["code"], 1) then
        if "msg" in f then Ok(f["msg"]) else Err(KeyError("msg"))
      else if EqualsInt(f["code"], -1) then
        if "msg" in f then Ok(f["msg"]) else Err(KeyError("msg"))
      else Ok(JStr(FailurePrefix + shown))
    case _ => Err(NotADict)
  }

  /** `ZhenBaiMeng.main` once the cookies are in the session: the message
      followed by a blank line. */
  function SignAndReport(res: Json, shown: string): (r: Result<string, SignError>)
    ensures r.Ok? ==> |r.value| >= 2 && r.value[|r.value| - 2..] == "\n\n"
    ensures r.Err? ==> Sign(res, shown).Err? || !Sign(res, shown).value.JStr?
  {
    var msg :- Sign(res, shown);
    if msg.JStr? then Ok(msg.s + "\n\n") else Err(NotAString)
  }

  /** The report is the sign-in message plus "\n\n", and is produced
      exactly when `sign` gives a string. */
  lemma ReportIsMessage(res: Json, shown: string, m: string)
    ensures SignAndReport(res, shown) == Ok(m + "\n\n") <==> Sign(res, shown) == Ok(JStr(m))
    ensures SignAndReport(res, shown).Ok? <==> Sign(res, shown).Ok? && Sign(res, shown).value.JStr?
  {
    if SignAndReport(res, shown) == Ok(m + "\n\n") {
      var s := Sign(res, shown).value.s;
      assert s + "\n\n" == m + "\n\n";
      assert s == (s + "\n\n")[..|s|];
      assert m == (m + "\n\n")[..|m|];
    }
  }

  /** A response whose code is neither 1 nor -1 always reports failure,
      whatever else it holds. */
  lemma OtherCodeReportsFailure(f: map<string, Json>, shown: string)
    requires "code" in f && !EqualsInt(f["code"], 1) && !EqualsInt(f["code"], -1)
    ensures SignAndReport(JObject(f), shown) == Ok(FailurePrefix + shown + "\n\n")
  {
  }

  // ---------------------------------------------------------------------
  // The start delay

  /** `random.randint(0, 60 * 5)` unless debugging; `draw` is the random
      source. */
  function SleepTime(debug: bool, draw: nat): (r: Option<nat>)
    ensures r.None? <==> debug
    ensures r.Some? ==> r.value <= 60 * 5
  {
    if debug then None else Some(draw % (60 * 5 + 1))
  }

  /** Every delay in [0, 300] seconds can occur. */
  lemma EveryDelayPossible(t: nat)
    requires t <= 60 * 5
    ensures SleepTime(false, t) == Some(t)
  {
  }
}
