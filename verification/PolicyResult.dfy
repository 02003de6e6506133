/** The structured result of evaluate_policy, assembled after a successful evaluation. */
module PolicyResult {
  import opened Collectors
  import opened Json
  import opened Sizing
  import opened TraceFormat
  import opened Wrappers

  const MAX_RESULT_BYTES := 262144

  datatype EvaluateResult = EvaluateResult(
    defined: bool, value: Value, resultSet: Option<seq<Row>>, resultSetOmitted: bool,
    printed: seq<string>, printedTruncated: bool, trace: seq<string>, traceTruncated: bool)

  // The encoding is short enough for a 64-bit count.
  predicate Countable(v: Value) { |Encoded(v)| <= MAX_INT - MAX_RESULT_BYTES }

  /**
    The value is returned whenever its own encoding fits, whether or not the result set
    does, so a returned value always fits. The set is left out exactly when it does not.
   */
  method Assemble<E>(rs: seq<Row>, printer: PrintCollector, tracer: BoundedTracer?<E>,
                     render: seq<E> -> string, encoder: string -> seq<string>)
    returns (out: EvaluateResult)
    requires printer.Valid()
    requires forall s: string :: Concat(encoder(s)) == s
    requires Countable(SetTree(rs)) && Countable(SingleValue(rs))
    ensures out.defined <==> rs != []
    ensures out.resultSetOmitted <==> |Text(SetTree(rs))| + 1 > 262144
    ensures out.resultSet == if out.resultSetOmitted then None else Some(rs)
    ensures |rs| == 1 && |rs[0].expressions| == 1 ==>
      var v := rs[0].expressions[0].value;
      out.value == if |Text(v)| + 1 <= 262144 then v else Null
    ensures !(|rs| == 1 && |rs[0].expressions| == 1) ==> out.value == Null
    ensures |Text(out.value)| < 262144
    ensures out.printed == printer.State().out && (out.printedTruncated <==> Cut(printer.State()))
    ensures tracer == null ==> out.trace == [] && !out.traceTruncated
    ensures tracer != null ==>
      && out.trace == Shown(tracer.events, render)
      && (out.traceTruncated <==> Shortened(tracer.events, tracer.dropped > 0, render))
  {
    var view, cut := printer.Lines();
    out := EvaluateResult(|rs| > 0, Null, None, false, view.data[..view.len], cut, [], false);
    var whole := EncodesWithin(SetTree(rs), MAX_RESULT_BYTES, encoder);
    if whole {
      SingleFitsWithSet(rs, MAX_RESULT_BYTES);
      out := out.(resultSet := Some(rs), value := SingleValue(rs));
    } else {
      out := out.(resultSetOmitted := true);
      var v := SingleValue(rs);
      var fits := EncodesWithin(v, MAX_RESULT_BYTES, encoder);
      if fits {
        out := out.(value := v);
      }
    }
    if tracer != null {
      var trace, truncated := FormatTrace(tracer.events, tracer.dropped > 0, render);
      out := out.(trace := trace, traceTruncated := truncated);
    }
  }
}
