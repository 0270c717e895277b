/** The `edgeOperation` request handler: it reads the query parameters,
    picks an operation by name, computes a one-key result and answers with
    a JSON response. The random draw and the clock reading, the handler's
    only effects, are inputs. */
module EdgeOperation {
  import opened Wrappers
  import JsText

  type JsString = JsText.JsString

  /** Already-decoded query parameters, in the order they appear. */
  type Params = seq<(JsString, JsString)>

  // Parameter names, operation names and fixed texts of the handler, as the
  // code units of the string literals written beside them.
  const OperationKey: JsString := [0x6F, 0x70, 0x65, 0x72, 0x61, 0x74, 0x69, 0x6F, 0x6E]  // "operation"
  const TextKey: JsString := [0x74, 0x65, 0x78, 0x74]  // "text"
  const MinKey: JsString := [0x6D, 0x69, 0x6E]  // "min"
  const MaxKey: JsString := [0x6D, 0x61, 0x78]  // "max"
  const FormatKey: JsString := [0x66, 0x6F, 0x72, 0x6D, 0x61, 0x74]  // "format"
  const ReverseName: JsString := [0x72, 0x65, 0x76, 0x65, 0x72, 0x73, 0x65]  // "reverse"
  const RandomName: JsString := [0x72, 0x61, 0x6E, 0x64, 0x6F, 0x6D]  // "random"
  const TimestampName: JsString := [0x74, 0x69, 0x6D, 0x65, 0x73, 0x74, 0x61, 0x6D, 0x70]  // "timestamp"
  const UnixFormat: JsString := [0x75, 0x6E, 0x69, 0x78]  // "unix"
  const IsoFormat: JsString := [0x69, 0x73, 0x6F]  // "iso"
  const DefaultMin: JsString := [0x30]  // "0"
  const DefaultMax: JsString := [0x31, 0x30, 0x30]  // "100"
  const InvalidOperation: JsString := [0x49, 0x6E, 0x76, 0x61, 0x6C, 0x69, 0x64, 0x20, 0x6F, 0x70, 0x65, 0x72, 0x61, 0x74, 0x69, 0x6F, 0x6E]  // "Invalid operation"
  const ContentType: JsString := [0x43, 0x6F, 0x6E, 0x74, 0x65, 0x6E, 0x74, 0x2D, 0x54, 0x79, 0x70, 0x65]  // "Content-Type"
  const ApplicationJson: JsString := [0x61, 0x70, 0x70, 0x6C, 0x69, 0x63, 0x61, 0x74, 0x69, 0x6F, 0x6E, 0x2F, 0x6A, 0x73, 0x6F, 0x6E]  // "application/json"

  const ReversedKey: JsString := [0x72, 0x65, 0x76, 0x65, 0x72, 0x73, 0x65, 0x64]  // "reversed"
  const ErrorKey: JsString := [0x65, 0x72, 0x72, 0x6F, 0x72]  // "error"

  /** The header list of every response the handler builds. */
  const JsonHeaders: seq<(JsString, JsString)> := [(ContentType, ApplicationJson)]

  lemma NamesDistinct()
    ensures ReverseName != RandomName && ReverseName != TimestampName && RandomName != TimestampName
    ensures UnixFormat != IsoFormat
  {
  }

  lemma DefaultBounds()
    ensures JsText.ParseInt(DefaultMin) == Some(0)
    ensures JsText.ParseInt(DefaultMax) == Some(100)
  {
    assert DefaultMax == [0x31, 0x30, 0x30] == JsText.Decimal(100);
    JsText.ParseIntDecimal(100, []);
    assert JsText.Decimal(100) + [] == DefaultMax;
  }

  // ---------------------------------------------------------------------
  // Query parameters: `url.searchParams.get(name) || fallback`
  // ---------------------------------------------------------------------

  /** `URLSearchParams.get`: the value of the first parameter called `name`. */
  function Get(params: Params, name: JsString): (v: Option<JsString>)
    ensures v.None? <==> forall i :: 0 <= i < |params| ==> params[i].0 != name
    ensures v.Some? ==> exists i :: 0 <= i < |params| && params[i] == (name, v.value)
                                    && forall j :: 0 <= j < i ==> params[j].0 != name
  {
    if params == [] then None
    else if params[0].0 == name then Some(params[0].1)
    else
      var v := Get(params[1..], name);
      assert v.Some? ==> exists i :: 0 <= i < |params| - 1 && params[1..][i] == (name, v.value)
                                     && forall j :: 0 <= j < i ==> params[1..][j].0 != name;
      v
  }

  /** `get(name) || fallback`: a missing parameter and an empty one are both
      falsy, and both give the fallback. */
  function Param(params: Params, name: JsString, fallback: JsString): (s: JsString)
    ensures Get(params, name) in {None, Some([])} ==> s == fallback
    ensures Get(params, name) !in {None, Some([])} ==> Some(s) == Get(params, name) && s != []
  {
    match Get(params, name)
    case Some(v) => if v != [] then v else fallback
    case None => fallback
  }

  // ---------------------------------------------------------------------
  // Dispatch on the operation name
  // ---------------------------------------------------------------------

  datatype Op = Reverse | Random | Timestamp | Unknown(name: JsString)

  /** The `switch (operation)` of the handler. */
  function ParseOp(name: JsString): (op: Op)
    ensures op == Reverse <==> name == ReverseName
    ensures op == Random <==> name == RandomName
    ensures op == Timestamp <==> name == TimestampName
    ensures op.Unknown? <==> name !in {ReverseName, RandomName, TimestampName}
    ensures op.Unknown? ==> op.name == name
  {
    NamesDistinct();
    if name == ReverseName then Reverse
    else if name == RandomName then Random
    else if name == TimestampName then Timestamp
    else Unknown(name)
  }

  /** The name each operation is requested by. */
  function OpName(op: Op): JsString
  {
    match op
    case Reverse => ReverseName
    case Random => RandomName
    case Timestamp => TimestampName
    case Unknown(name) => name
  }

  /** Every operation name dispatches to the operation it names, and an
      unrecognised name is kept as it was requested. */
  lemma ParseOpName(name: JsString)
    ensures OpName(ParseOp(name)) == name
    ensures ParseOp(name).Unknown? || ParseOp(OpName(ParseOp(name))) == ParseOp(name)
  {
  }

  /** The operation a request asks for; `operation` defaults to `reverse`. */
  function RequestedOp(params: Params): (op: Op)
    ensures Get(params, OperationKey) in {None, Some([])} ==> op == Reverse
  {
    ParseOp(Param(params, OperationKey, ReverseName))
  }

  // ---------------------------------------------------------------------
  // Result values
  // ---------------------------------------------------------------------

  /** A JSON number the handler can produce: an integer, or NaN when a bound
      of the random range did not parse (serialised by JSON as `null`). */
  datatype Number = Int(value: int) | NaN

  /** A timestamp: whole seconds since the epoch, or the ISO-8601 text of the
      instant `ms` (milliseconds since the epoch), kept unrendered. */
  datatype Stamp = UnixSeconds(seconds: int) | IsoTime(ms: int)

  /** The one-key JSON object of a response body. */
  datatype Body =
    | Reversed(reversed: JsString)
    | RandomValue(random: Number)
    | TimestampValue(timestamp: Stamp)
    | Error(error: JsString)

  /** The one key a body carries. */
  function Key(body: Body): JsString
  {
    match body
    case Reversed(_) => ReversedKey
    case RandomValue(_) => RandomName
    case TimestampValue(_) => TimestampName
    case Error(_) => ErrorKey
  }

  datatype Response = Response(status: int, headers: seq<(JsString, JsString)>, body: Body)

  // ---------------------------------------------------------------------
  // random: Math.floor(Math.random() * (max - min + 1)) + min
  // ---------------------------------------------------------------------

  /** The random formula, kept as written, with the draw `r` in [0, 1); a
      bound that did not parse makes the arithmetic NaN. */
  function RandomFormula(min: Option<int>, max: Option<int>, r: real): (n: Number)
    requires 0.0 <= r < 1.0
    ensures n.NaN? <==> min.None? || max.None?
    ensures min.Some? && max.Some? && min.value <= max.value ==>
              min.value <= n.value <= max.value
    ensures min.Some? && max.Some? && min.value > max.value ==>
              max.value + 1 <= n.value <= min.value
  {
    if min.None? || max.None? then NaN
    else
      var span := max.value - min.value + 1;
      FloorOfFraction(r, span);
      Int((r * span as real).Floor + min.value)
  }

  /** For a draw in [0, 1), r * span lies between 0 and span, whichever sign
      span has, and so does its floor (below span when span is positive). */
  lemma FloorOfFraction(r: real, span: int)
    requires 0.0 <= r < 1.0
    ensures span > 0 ==> 0 <= (r * span as real).Floor < span
    ensures span <= 0 ==> span <= (r * span as real).Floor <= 0
  {
    var s := span as real;
    var x := r * s;
    if span > 0 {
      ProductSign(r, s);
      ProductSign(1.0 - r, s);
      assert s - x == (1.0 - r) * s;
      assert 0.0 <= x < s;
      assert x.Floor as real <= x;
    } else {
      ProductSign(r, -s);
      ProductSign(1.0 - r, -s);
      assert x - s == (1.0 - r) * -s;
      assert -x == r * -s;
      assert s <= x <= 0.0;
    }
  }

  lemma ProductSign(a: real, b: real)
    requires a >= 0.0 && b >= 0.0
    ensures a * b >= 0.0
    ensures a > 0.0 && b > 0.0 ==> a * b > 0.0
  {
  }

  /** The draw is uniform over the range: for min <= max the formula yields
      k exactly when r falls in the k-th of max - min + 1 equal slices of
      [0, 1). */
  lemma RandomSlices(min: int, max: int, r: real, k: int)
    requires min <= max && 0.0 <= r < 1.0
    ensures var span := (max - min + 1) as real;
            RandomFormula(Some(min), Some(max), r) == Int(k) <==>
            (k - min) as real / span <= r < (k - min) as real / span + 1.0 / span
  {
  }

  /** With min one above max the range collapses: the formula always gives
      min, whatever the draw. */
  lemma RandomCollapsed(min: int, r: real)
    requires 0.0 <= r < 1.0
    ensures RandomFormula(Some(min), Some(min - 1), r) == Int(min)
  {
  }

  // ---------------------------------------------------------------------
  // timestamp
  // ---------------------------------------------------------------------

  /** The timestamp for a clock reading of `nowMs` milliseconds since the
      epoch: whole seconds for the format `unix` (Math.floor of the
      division; Dafny's division by a positive divisor rounds down too),
      and the ISO-8601 text of the instant for every other format. */
  function TimestampOf(format: JsString, nowMs: int): (t: Stamp)
    ensures t.UnixSeconds? <==> format == UnixFormat
    ensures t.UnixSeconds? ==> 1000 * t.seconds <= nowMs < 1000 * (t.seconds + 1)
    ensures t.IsoTime? ==> t.ms == nowMs
  {
    if format == UnixFormat then UnixSeconds(nowMs / 1000) else IsoTime(nowMs)
  }

  // ---------------------------------------------------------------------
  // The handler
  // ---------------------------------------------------------------------

  /** The response to a request with query parameters `params`, when
      `Math.random()` draws `r` and the clock reads `nowMs`. */
  function Handle(params: Params, r: real, nowMs: int): (resp: Response)
    requires 0.0 <= r < 1.0
    ensures resp.headers == JsonHeaders
    ensures resp.status == 400 <==> resp.body.Error?
    ensures resp.status == 200 || resp.status == 400
  {
    match RequestedOp(params)
    case Reverse =>
      Response(200, JsonHeaders, Reversed(JsText.Reverse(Param(params, TextKey, []))))
    case Random =>
      var min := JsText.ParseInt(Param(params, MinKey, DefaultMin));
      var max := JsText.ParseInt(Param(params, MaxKey, DefaultMax));
      Response(200, JsonHeaders, RandomValue(RandomFormula(min, max, r)))
    case Timestamp =>
      Response(200, JsonHeaders, TimestampValue(TimestampOf(Param(params, FormatKey, IsoFormat), nowMs)))
    case Unknown(_) =>
      Response(400, JsonHeaders, Error(InvalidOperation))
  }

  /** Only an unrecognised operation name is an error: it gets status 400
      and the body `{error: "Invalid operation"}`; every recognised one gets
      200 and a body whose one key names the operation. */
  lemma HandleDispatch(params: Params, r: real, nowMs: int)
    requires 0.0 <= r < 1.0
    ensures var name := Param(params, OperationKey, ReverseName);
            var resp := Handle(params, r, nowMs);
            && (resp.status == 400 <==> name !in {ReverseName, RandomName, TimestampName})
            && (resp.status == 400 ==> resp.body == Error(InvalidOperation))
            && (name == ReverseName ==> resp.status == 200 && Key(resp.body) == ReversedKey)
            && (name == RandomName ==> resp.status == 200 && Key(resp.body) == RandomName)
            && (name == TimestampName ==> resp.status == 200 && Key(resp.body) == TimestampName)
  {
  }

  /** The `reverse` operation, requested by name or by leaving `operation`
      missing or empty, answers 200 with the reversal of `text` (itself
      defaulting to the empty string), and reversing the answer gives the
      text back. */
  lemma HandleReverse(params: Params, r: real, nowMs: int)
    requires 0.0 <= r < 1.0
    requires RequestedOp(params) == Reverse
    ensures var text := Param(params, TextKey, []);
            var resp := Handle(params, r, nowMs);
            && resp.status == 200
            && resp.body == Reversed(JsText.Reverse(text))
            && |resp.body.reversed| == |text|
            && JsText.Reverse(resp.body.reversed) == text
  {
    JsText.ReverseInvolutive(Param(params, TextKey, []));
  }

  /** When `min` and `max` both parse and min <= max, the random answer is an
      integer of [min, max]; with the bounds swapped it lies in
      [max + 1, min], inside [max, min]. */
  lemma HandleRandomBounds(params: Params, r: real, nowMs: int, lo: int, hi: int)
    requires 0.0 <= r < 1.0
    requires RequestedOp(params) == Random
    requires JsText.ParseInt(Param(params, MinKey, DefaultMin)) == Some(lo)
    requires JsText.ParseInt(Param(params, MaxKey, DefaultMax)) == Some(hi)
    ensures var resp := Handle(params, r, nowMs);
            && resp.status == 200
            && resp.body.RandomValue? && resp.body.random.Int?
            && (lo <= hi ==> lo <= resp.body.random.value <= hi)
            && (lo > hi ==> hi < resp.body.random.value <= lo)
  {
  }

  /** Without `min` and `max` (or with both empty) the random answer is an
      integer of [0, 100]. */
  lemma HandleRandomDefaults(params: Params, r: real, nowMs: int)
    requires 0.0 <= r < 1.0
    requires RequestedOp(params) == Random
    requires Get(params, MinKey) in {None, Some([])}
    requires Get(params, MaxKey) in {None, Some([])}
    ensures var resp := Handle(params, r, nowMs);
            && resp.status == 200
            && resp.body.RandomValue? && resp.body.random.Int?
            && 0 <= resp.body.random.value <= 100
  {
    DefaultBounds();
    HandleRandomBounds(params, r, nowMs, 0, 100);
  }

  /** A bound that does not parse is not an error: the answer is NaN with
      status 200. */
  lemma HandleRandomUnparsed(params: Params, r: real, nowMs: int)
    requires 0.0 <= r < 1.0
    requires RequestedOp(params) == Random
    requires JsText.ParseInt(Param(params, MinKey, DefaultMin)).None?
             || JsText.ParseInt(Param(params, MaxKey, DefaultMax)).None?
    ensures Handle(params, r, nowMs) == Response(200, JsonHeaders, RandomValue(NaN))
  {
  }

  /** `format=unix` answers the whole seconds of the clock reading; every
      other format, missing, empty or unknown, answers the ISO text of the
      instant; neither is an error. */
  lemma HandleTimestamp(params: Params, r: real, nowMs: int)
    requires 0.0 <= r < 1.0
    requires RequestedOp(params) == Timestamp
    ensures var resp := Handle(params, r, nowMs);
            && resp.status == 200
            && resp.body.TimestampValue?
            && (Get(params, FormatKey) == Some(UnixFormat) <==> resp.body.timestamp.UnixSeconds?)
            && (resp.body.timestamp.UnixSeconds? ==>
                  var t := resp.body.timestamp.seconds;
                  1000 * t <= nowMs < 1000 * (t + 1) && (nowMs >= 1000 ==> t > 0))
            && (resp.body.timestamp.IsoTime? ==> resp.body.timestamp.ms == nowMs)
  {
    NamesDistinct();
  }

  // ---------------------------------------------------------------------
  // The handler's documented scenarios, as instances of the lemmas above
  // ---------------------------------------------------------------------

  const Hello: JsString := [0x68, 0x65, 0x6C, 0x6C, 0x6F]  // "hello"
  const Olleh: JsString := [0x6F, 0x6C, 0x6C, 0x65, 0x68]  // "olleh"
  const Ten: JsString := [0x31, 0x30]  // "10"
  const Five: JsString := [0x35]  // "5"
  const InvalidName: JsString := [0x69, 0x6E, 0x76, 0x61, 0x6C, 0x69, 0x64, 0x5F, 0x6F, 0x70,
                                  0x65, 0x72, 0x61, 0x74, 0x69, 0x6F, 0x6E]  // "invalid_operation"

  /** `?operation=reverse&text=hello` and `?text=hello` both answer
      `{reversed: "olleh"}`. */
  lemma ReverseHelloScenario(r: real, nowMs: int)
    requires 0.0 <= r < 1.0
    ensures Handle([(OperationKey, ReverseName), (TextKey, Hello)], r, nowMs)
            == Response(200, JsonHeaders, Reversed(Olleh))
    ensures Handle([(TextKey, Hello)], r, nowMs) == Response(200, JsonHeaders, Reversed(Olleh))
  {
    forall i | 0 <= i < |Hello|
      ensures JsText.Reverse(Hello)[i] == Olleh[i]
    {
      JsText.ReverseMirrors(Hello, i);
    }
    var explicit := [(OperationKey, ReverseName), (TextKey, Hello)];
    assert explicit[1..] == [(TextKey, Hello)];
    assert Get(explicit, TextKey) == Some(Hello);
    var implicit := [(TextKey, Hello)];
    assert implicit[1..] == [];
    assert Get(implicit, OperationKey) == None;
  }

  /** `?operation=reverse&text=` answers `{reversed: ""}`. */
  lemma ReverseEmptyScenario(r: real, nowMs: int)
    requires 0.0 <= r < 1.0
    ensures Handle([(OperationKey, ReverseName), (TextKey, [])], r, nowMs)
            == Response(200, JsonHeaders, Reversed([]))
  {
    var params := [(OperationKey, ReverseName), (TextKey, [])];
    assert params[1..] == [(TextKey, [])];
    assert Get(params, TextKey) == Some([]);
  }

  /** `?operation=random&min=10&max=5` answers an integer of [5, 10]. */
  lemma RandomSwappedScenario(r: real, nowMs: int)
    requires 0.0 <= r < 1.0
    ensures var resp := Handle([(OperationKey, RandomName), (MinKey, Ten), (MaxKey, Five)], r, nowMs);
            resp.body.RandomValue? && resp.body.random.Int? && 5 <= resp.body.random.value <= 10
  {
    var params := [(OperationKey, RandomName), (MinKey, Ten), (MaxKey, Five)];
    assert Ten == JsText.Decimal(10) + [] && Five == JsText.Decimal(5) + [];
    JsText.ParseIntDecimal(10, []);
    JsText.ParseIntDecimal(5, []);
    assert params[1..] == [(MinKey, Ten), (MaxKey, Five)];
    assert params[1..][1..] == [(MaxKey, Five)];
    assert Get(params, MinKey) == Some(Ten);
    assert Get(params[1..], MaxKey) == Some(Five);
    assert Get(params, MaxKey) == Some(Five);
    HandleRandomBounds(params, r, nowMs, 10, 5);
  }

  /** `?operation=invalid_operation` answers 400 `{error: "Invalid operation"}`. */
  lemma InvalidOperationScenario(r: real, nowMs: int)
    requires 0.0 <= r < 1.0
    ensures Handle([(OperationKey, InvalidName)], r, nowMs)
            == Response(400, JsonHeaders, Error(InvalidOperation))
  {
  }
}
