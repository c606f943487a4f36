/**
 * The two request handlers that read a tagged notebook cell and parse it
 * statically: `get_pipeline_parameters` and `get_pipeline_metrics`.
 *
 * The notebook reader (`nbformat.read`), the tagged-cell locators and the two
 * static parsers are parameters: `read`, `locate` and `parse`. Exceptions are
 * values of `Exception`; an `Attempt` is a call that returns or raises.
 */
module Handlers {
  import opened Wrappers

  const ParametersTag: string := "pipeline-parameters"
  const MetricsTag: string := "pipeline-metrics"

  const NoParametersMessage: string :=
    "No pipeline parameters found. Please tag a cell of the notebook with the `" + ParametersTag + "` tag."
  const NoMetricsMessage: string :=
    "No pipeline metrics found. Please tag a cell of the notebook with the `" + MetricsTag + "` tag."

  /** The part of an RPC request the handlers use. */
  datatype Request = Request(transId: string)

  /** A raised exception: a `ValueError` (or subclass), or any other kind. */
  datatype Exception = ValueError(message: string) | OtherError(kind: string, message: string)

  /** The outcome of a call into code outside this model. */
  datatype Attempt<+T> = Returned(value: T) | Raised(exc: Exception)

  /** What a handler raises to the RPC layer. */
  datatype RpcError =
    | InternalError(details: string, transId: string)
    | Propagated(exc: Exception)

  /** One parsed assignment: the variable, its inferred type and its literal text. */
  datatype Parameter = Parameter(name: string, typeName: string, value: string)

  /** `word` occurs in `msg` starting at index `i`. */
  predicate OccursAt(msg: string, word: string, i: int) {
    0 <= i <= |msg| - |word| && msg[i..i + |word|] == word
  }

  /** `msg` contains `word`. */
  ghost predicate Mentions(msg: string, word: string) {
    exists i :: OccursAt(msg, word, i)
  }

  /** The `except ValueError` clause: a ValueError becomes an internal error tagged with the request's id. */
  function Translate(req: Request, e: Exception): (err: RpcError)
    ensures err.InternalError? <==> e.ValueError?
    ensures err.InternalError? ==> err.details == e.message && err.transId == req.transId
    ensures err.Propagated? ==> err.exc == e
  {
    if e.ValueError? then InternalError(e.message, req.transId) else Propagated(e)
  }

  /** `[[k, *v] for k, v in params_dict.items()]`: one `[name, type, value]` row per parameter, in order. */
  function ParameterRows(params: seq<Parameter>): (rows: seq<seq<string>>)
    ensures |rows| == |params|
    ensures forall i :: 0 <= i < |rows| ==>
      rows[i] == [params[i].name, params[i].typeName, params[i].value]
  {
    if params == [] then []
    else [[params[0].name, params[0].typeName, params[0].value]] + ParameterRows(params[1..])
  }

  /** Reads the parameters back from the rows a client receives. */
  function RowsToParameters(rows: seq<seq<string>>): (params: seq<Parameter>)
    requires forall i :: 0 <= i < |rows| ==> |rows[i]| == 3
  {
    if rows == [] then []
    else [Parameter(rows[0][0], rows[0][1], rows[0][2])] + RowsToParameters(rows[1..])
  }

  /** Flattening loses nothing: the rows give back the parsed parameters in their order. */
  lemma {:induction false} RowsRoundTrip(params: seq<Parameter>)
    ensures RowsToParameters(ParameterRows(params)) == params
  {
    if params != [] {
      RowsRoundTrip(params[1..]);
      assert ParameterRows(params)[1..] == ParameterRows(params[1..]);
    }
  }

  /**
   * `get_pipeline_parameters`: reads the notebook, takes the source of the cells
   * tagged `pipeline-parameters`, rejects an empty source, parses it and returns
   * one row per parameter. ValueErrors become internal errors carrying the
   * request's transaction id; other exceptions propagate.
   */
  function GetPipelineParameters<Nb>(req: Request, notebookPath: string, read: string -> Attempt<Nb>,
                                     locate: Nb -> string, parse: string -> Attempt<seq<Parameter>>)
    : (r: Result<seq<seq<string>>, RpcError>)
    ensures read(notebookPath).Raised? ==> r == Failure(Translate(req, read(notebookPath).exc))
    ensures read(notebookPath).Returned? && locate(read(notebookPath).value) == "" ==>
      r == Failure(InternalError(NoParametersMessage, req.transId))
    ensures read(notebookPath).Returned? && locate(read(notebookPath).value) != ""
            && parse(locate(read(notebookPath).value)).Raised? ==>
      r == Failure(Translate(req, parse(locate(read(notebookPath).value)).exc))
    ensures r.Success? <==> read(notebookPath).Returned? && locate(read(notebookPath).value) != ""
                            && parse(locate(read(notebookPath).value)).Returned?
    ensures r.Success? ==> var params := parse(locate(read(notebookPath).value)).value;
      && |r.value| == |params|
      && forall i :: 0 <= i < |params| ==> r.value[i] == [params[i].name, params[i].typeName, params[i].value]
    ensures r.Failure? && r.error.InternalError? ==> r.error.transId == req.transId
    ensures r.Failure? && r.error.Propagated? ==> !r.error.exc.ValueError?
  {
    match read(notebookPath)
    case Raised(e) => Failure(Translate(req, e))
    case Returned(notebook) =>
      var source := locate(notebook);
      if source == "" then
        Failure(InternalError(NoParametersMessage, req.transId))
      else
        match parse(source)
        case Raised(e) => Failure(Translate(req, e))
        case Returned(params) => Success(ParameterRows(params))
  }

  /**
   * `get_pipeline_metrics`: the same protocol for the cells tagged
   * `pipeline-metrics`; the parsed metrics are returned as the parser gave them.
   */
  function GetPipelineMetrics<Nb, M>(req: Request, notebookPath: string, read: string -> Attempt<Nb>,
                                     locate: Nb -> string, parse: string -> Attempt<M>)
    : (r: Result<M, RpcError>)
    ensures read(notebookPath).Raised? ==> r == Failure(Translate(req, read(notebookPath).exc))
    ensures read(notebookPath).Returned? && locate(read(notebookPath).value) == "" ==>
      r == Failure(InternalError(NoMetricsMessage, req.transId))
    ensures read(notebookPath).Returned? && locate(read(notebookPath).value) != ""
            && parse(locate(read(notebookPath).value)).Raised? ==>
      r == Failure(Translate(req, parse(locate(read(notebookPath).value)).exc))
    ensures r.Success? <==> read(notebookPath).Returned? && locate(read(notebookPath).value) != ""
                            && parse(locate(read(notebookPath).value)).Returned?
    ensures r.Success? ==> r.value == parse(locate(read(notebookPath).value)).value
    ensures r.Failure? && r.error.InternalError? ==> r.error.transId == req.transId
    ensures r.Failure? && r.error.Propagated? ==> !r.error.exc.ValueError?
  {
    match read(notebookPath)
    case Raised(e) => Failure(Translate(req, e))
    case Returned(notebook) =>
      var source := locate(notebook);
      if source == "" then
        Failure(InternalError(NoMetricsMessage, req.transId))
      else
        match parse(source)
        case Raised(e) => Failure(Translate(req, e))
        case Returned(metrics) => Success(metrics)
  }

  /** The error for a missing parameters cell names the tag the user must add. */
  lemma NoParametersMessageNamesTag()
    ensures Mentions(NoParametersMessage, "`" + ParametersTag + "`")
  {
    var prefix := "No pipeline parameters found. Please tag a cell of the notebook with the ";
    var word := "`" + ParametersTag + "`";
    assert NoParametersMessage == prefix + word + " tag.";
    assert OccursAt(NoParametersMessage, word, |prefix|);
  }

  /** The error for a missing metrics cell names the tag the user must add. */
  lemma NoMetricsMessageNamesTag()
    ensures Mentions(NoMetricsMessage, "`" + MetricsTag + "`")
  {
    var prefix := "No pipeline metrics found. Please tag a cell of the notebook with the ";
    var word := "`" + MetricsTag + "`";
    assert NoMetricsMessage == prefix + word + " tag.";
    assert OccursAt(NoMetricsMessage, word, |prefix|);
  }

  /** With no tagged source the parameter parser is never consulted: any parser gives the same answer. */
  lemma EmptyParametersSourceSkipsParser<Nb>(req: Request, notebookPath: string, read: string -> Attempt<Nb>,
                                             locate: Nb -> string, parse1: string -> Attempt<seq<Parameter>>,
                                             parse2: string -> Attempt<seq<Parameter>>)
    requires read(notebookPath).Returned? && locate(read(notebookPath).value) == ""
    ensures GetPipelineParameters(req, notebookPath, read, locate, parse1)
         == GetPipelineParameters(req, notebookPath, read, locate, parse2)
  {
  }

  /** With no tagged source the metrics parser is never consulted: any parser gives the same answer. */
  lemma EmptyMetricsSourceSkipsParser<Nb, M>(req: Request, notebookPath: string, read: string -> Attempt<Nb>,
                                             locate: Nb -> string, parse1: string -> Attempt<M>,
                                             parse2: string -> Attempt<M>)
    requires read(notebookPath).Returned? && locate(read(notebookPath).value) == ""
    ensures GetPipelineMetrics(req, notebookPath, read, locate, parse1)
         == GetPipelineMetrics(req, notebookPath, read, locate, parse2)
  {
  }
}
