/**
 * The PDF engine registry (registry.py): the engine name is normalised and
 * checked against the two supported engines, then exactly one backend is
 * called.
 */
module Registry {
  import opened Wrappers
  import opened Text

  /** `_ENGINES`. */
  const Engines: seq<string> := ["pymupdf", "marker"]

  /** `f"Unknown engine: {name}. Choose from {_ENGINES}."` */
  function UnknownEngine(name: string): string {
    "Unknown engine: " + name + ". Choose from ('pymupdf', 'marker')."
  }

  /** `get_engine`: the lower-cased, stripped name when it is a supported
      engine, otherwise a `ValueError`. */
  function GetEngine(name: string): (r: Result<string, string>)
    ensures r.Success? <==> Strip(Lower(name)) in Engines
    ensures r.Success? ==> r.value == Strip(Lower(name)) && r.value in Engines
    ensures r.Failure? ==> StartsWith(r.error, "Unknown engine: " + name)
  {
    var n := Strip(Lower(name));
    if n !in Engines then Failure(UnknownEngine(name)) else Success(n)
  }

  /** Both engines are accepted by their own names. */
  lemma GetEngineAcceptsOwnNames()
    ensures GetEngine("pymupdf") == Success("pymupdf")
    ensures GetEngine("marker") == Success("marker")
  {
    LowerNoop("pymupdf");
    StripNoop("pymupdf");
    LowerNoop("marker");
    StripNoop("marker");
  }

  /** A name that is neither engine is refused. */
  lemma GetEngineRejectsInvalid()
    ensures GetEngine("invalid").Failure?
  {
    var n := "invalid";
    assert Strip(Lower(n)) == n by {
      LowerNoop(n);
      StripNoop(n);
    }
    assert n != Engines[0] by { assert n[0] != Engines[0][0]; }
    assert n != Engines[1] by { assert |n| != |Engines[1]|; }
  }

  /** Letter case and surrounding whitespace do not matter: the normalised
      name is accepted exactly when the name is, and resolves the same. */
  lemma GetEngineNormalises(name: string)
    ensures GetEngine(Strip(Lower(name))).Success? <==> GetEngine(name).Success?
    ensures GetEngine(name).Success? ==> GetEngine(Strip(Lower(name))) == GetEngine(name)
  {
    calc {
      Strip(Lower(Strip(Lower(name))));
      { LowerStripCommute(Lower(name)); }
      Strip(Strip(Lower(Lower(name))));
      { LowerIdempotent(name); }
      Strip(Strip(Lower(name)));
      { StripIdempotent(Lower(name)); }
      Strip(Lower(name));
    }
  }

  /** `get_engine` accepts its own result and returns it unchanged. */
  lemma GetEngineIdempotent(name: string)
    requires GetEngine(name).Success?
    ensures GetEngine(GetEngine(name).value) == GetEngine(name)
  {
    GetEngineNormalises(name);
  }

  /** The two backends: what each returns (or the message of what it
      raises) for a PDF path and an optional page list. */
  datatype Backends = Backends(
    pymupdf: (string, Option<seq<int>>) -> Result<string, string>,
    marker: (string, Option<seq<int>>) -> Result<string, string>)

  /** `convert`: validate the engine, then call exactly one backend with the
      path and the pages. */
  function Convert(path: string, pages: Option<seq<int>>, engine: string, backends: Backends): (r: Result<string, string>)
    ensures GetEngine(engine).Failure? ==> r == Failure(GetEngine(engine).error)
    ensures GetEngine(engine) == Success("pymupdf") ==> r == backends.pymupdf(path, pages)
    ensures GetEngine(engine) == Success("marker") ==> r == backends.marker(path, pages)
  {
    match GetEngine(engine)
    case Failure(e) => Failure(e)
    case Success(eng) =>
      if eng == "pymupdf" then backends.pymupdf(path, pages)
      else if eng == "marker" then backends.marker(path, pages)
      else assert false; Failure("Unknown engine: " + engine)
  }

  /** Only the chosen backend is called: two sets of backends that agree on
      it give the same result. */
  lemma ConvertCallsOneBackend(path: string, pages: Option<seq<int>>, engine: string, a: Backends, b: Backends)
    requires GetEngine(engine).Success?
    ensures GetEngine(engine).value == "pymupdf" && a.pymupdf(path, pages) == b.pymupdf(path, pages)
      ==> Convert(path, pages, engine, a) == Convert(path, pages, engine, b)
    ensures GetEngine(engine).value == "marker" && a.marker(path, pages) == b.marker(path, pages)
      ==> Convert(path, pages, engine, a) == Convert(path, pages, engine, b)
  {
  }

  /** An unknown engine fails before any backend is called. */
  lemma ConvertValidatesFirst(path: string, pages: Option<seq<int>>, engine: string, a: Backends, b: Backends)
    requires GetEngine(engine).Failure?
    ensures Convert(path, pages, engine, a) == Convert(path, pages, engine, b)
    ensures Convert(path, pages, engine, a).Failure?
    ensures StartsWith(Convert(path, pages, engine, a).error, "Unknown engine: " + engine)
  {
  }
}
