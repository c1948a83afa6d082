/**
 * Model of api/viability.js: the recommendation text, the input guards of
 * the `/buscar` and `/area` endpoints, and the decisions of the `/viability`
 * handler (validation order, radius default, overall verdict).
 *
 * HTTP transport, logging and timestamps are not modelled; a response is the
 * value the handler would serialise, tagged with the kind of status it sends.
 */
module Viability {
  import opened Wrappers
  import Text
  import opened Validation
  import opened BigQuery

  // ---------------------------------------------------------------------------
  // gerarRecomendacoes
  // ---------------------------------------------------------------------------

  const MsgNenhumaCto := "Nenhuma CTO encontrada no raio especificado"
  const MsgDentroDoRaio := "\U{2705} CTO dentro do raio padrão de 300m"
  const MsgComCapacidade := "\U{2705} Capacidade disponível para nova instalação"
  const MsgSemCapacidade := "\U{26A0}\U{FE0F} CTO sem capacidade disponível - verificar expansão"
  const MsgForaDoRaio := "\U{26A0}\U{FE0F} CTO mais próxima está a mais de 300m"
  const MsgEstudoViabilidade := "\U{1F4A1} Considerar estudo de viabilidade técnica para extensão"

  /** The advice about the capacity of a node within the standard radius. */
  function CapacityAdvice(capacidadeDisponivel: int): string
  {
    if capacidadeDisponivel > 0 then MsgComCapacidade else MsgSemCapacidade
  }

  /**
   * The recommendations for a result list: a "not found" note when it is
   * empty, otherwise a distance note and a follow-up about the first (nearest) result.
   */
  function Recommendations(results: seq<Classified>): (r: seq<string>)
    ensures |r| == if results == [] then 1 else 2
    ensures MsgNenhumaCto in r <==> results == []
  {
    RecommendationTextsDistinct();
    if results == [] then [MsgNenhumaCto]
    else if results[0].row.distanciaMetros <= StandardRadius then
      [MsgDentroDoRaio, CapacityAdvice(results[0].row.capacidadeDisponivel)]
    else
      [MsgForaDoRaio, MsgEstudoViabilidade]
  }

  /** `router.gerarRecomendacoes`: builds the list by pushing one message at a time. */
  method GerarRecomendacoes(ctoResults: seq<Classified>) returns (recomendacoes: seq<string>)
    ensures recomendacoes == Recommendations(ctoResults)
  {
    if |ctoResults| == 0 {
      return [MsgNenhumaCto];
    }
    recomendacoes := [];
    var ctoMaisProxima := ctoResults[0].row;
    if ctoMaisProxima.distanciaMetros <= 300.0 {
      recomendacoes := recomendacoes + [MsgDentroDoRaio];
      if ctoMaisProxima.capacidadeDisponivel > 0 {
        recomendacoes := recomendacoes + [MsgComCapacidade];
      } else {
        recomendacoes := recomendacoes + [MsgSemCapacidade];
      }
    } else {
      recomendacoes := recomendacoes + [MsgForaDoRaio];
      recomendacoes := recomendacoes + [MsgEstudoViabilidade];
    }
  }

  /**
   * The three outcomes for a non-empty list, decided by its first element
   * alone: within 300 m with capacity, within 300 m without, and further away.
   */
  lemma RecommendationCases(results: seq<Classified>)
    ensures results == [] ==> Recommendations(results) == [MsgNenhumaCto]
    ensures results != [] ==> |Recommendations(results)| == 2
    ensures results != [] && results[0].row.distanciaMetros <= 300.0 && results[0].row.capacidadeDisponivel > 0 ==>
      Recommendations(results) == [MsgDentroDoRaio, MsgComCapacidade]
    ensures results != [] && results[0].row.distanciaMetros <= 300.0 && results[0].row.capacidadeDisponivel <= 0 ==>
      Recommendations(results) == [MsgDentroDoRaio, MsgSemCapacidade]
    ensures results != [] && results[0].row.distanciaMetros > 300.0 ==>
      Recommendations(results) == [MsgForaDoRaio, MsgEstudoViabilidade]
  {
  }

  /** Two non-empty lists with the same first element get the same recommendations. */
  lemma RecommendationsDependOnNearest(a: seq<Classified>, b: seq<Classified>)
    requires a != [] && b != [] && a[0].row == b[0].row
    ensures Recommendations(a) == Recommendations(b)
  {
  }

  /** The six recommendation texts are pairwise different. */
  lemma RecommendationTextsDistinct()
    ensures |MsgNenhumaCto| == 43 && |MsgDentroDoRaio| == 35 && |MsgComCapacidade| == 44
    ensures |MsgSemCapacidade| == 53 && |MsgForaDoRaio| == 39 && |MsgEstudoViabilidade| == 56
  {
  }

  /**
   * For a list whose first element has free capacity and carries its own
   * classification, the no-capacity warning is absent, and the advice is
   * "within radius, capacity available" exactly when that element is ALTA.
   */
  lemma RecommendationsWithCapacity(results: seq<Classified>)
    requires results == [] || results[0].row.capacidadeDisponivel > 0
    requires results != [] ==>
      results[0].viabilidade == ClassificarViabilidade(results[0].row.distanciaMetros, results[0].row.capacidadeDisponivel)
    ensures MsgSemCapacidade !in Recommendations(results)
    ensures results != [] ==>
      (Recommendations(results) == [MsgDentroDoRaio, MsgComCapacidade] <==> results[0].viabilidade == TierLabel(Alta))
  {
    RecommendationTextsDistinct();
    if results != [] {
      var d := results[0].row.distanciaMetros;
      var c := results[0].row.capacidadeDisponivel;
      TierLabelInjective(Classify(d, c), Alta);
      ClassifyTiers(d, c);
    }
  }

  /** For the proximity results of a reachable store the preconditions above hold. */
  lemma RecommendationsForProximity(rows: seq<ViewRow>, dist: (Point, Point) -> real, latitude: real, longitude: real, radius: int)
    ensures var out := CheckCTOsProximity(Available(rows), dist, latitude, longitude, radius).value;
      MsgSemCapacidade !in Recommendations(out) &&
      (out != [] ==> (Recommendations(out) == [MsgDentroDoRaio, MsgComCapacidade] <==> out[0].viabilidade == TierLabel(Alta)))
  {
    var client := Point(longitude, latitude);
    var q := ProximityQuery(rows, dist, client, radius);
    var out := CheckCTOsProximity(Available(rows), dist, latitude, longitude, radius).value;
    assert out == Annotate(q);
    if out != [] {
      ProximityClosest(rows, dist, client, radius);
      assert q[0] in q;
      assert out[0].row == q[0];
    }
    RecommendationsWithCapacity(out);
  }

  // ---------------------------------------------------------------------------
  // /buscar and /area guards
  // ---------------------------------------------------------------------------

  const MinSearchLength := 3
  const MsgTermoCurto := "Termo de busca deve ter pelo menos 3 caracteres"
  const MsgAreaObrigatoria := "Coordenadas da área são obrigatórias (north, south, east, west)"

  /** The `/buscar` guard: reject a missing or empty `q`, or one shorter than 3 once trimmed. */
  function SearchGuard(q: Option<string>): (r: Result<string, string>)
    ensures r.Success? <==> q.Some? && |Text.Trim(q.value)| >= MinSearchLength
    ensures r.Success? ==> r.value == Text.Trim(q.value)
    ensures r.Failure? ==> r.error == MsgTermoCurto
  {
    if q.None? || q.value == "" || |Text.Trim(q.value)| < MinSearchLength then Failure(MsgTermoCurto)
    else Success(Text.Trim(q.value))
  }

  /** An accepted term has at least 3 characters and no whitespace at either end. */
  lemma SearchTermTrimmed(q: string)
    requires SearchGuard(Some(q)).Success?
    ensures var term := SearchGuard(Some(q)).value;
      |term| >= MinSearchLength && !Text.IsWhitespace(term[0]) && !Text.IsWhitespace(term[|term| - 1])
  {
    Text.TrimEnds(q);
  }

  /** An accepted term is left unchanged by trimming it again. */
  lemma SearchTermStable(q: string)
    requires SearchGuard(Some(q)).Success?
    ensures Text.Trim(SearchGuard(Some(q)).value) == SearchGuard(Some(q)).value
  {
    Text.TrimIdempotent(q);
  }

  lemma PaddedTermTrimStart()
    ensures Text.TrimStart("  ab  ") == "ab  "
  {
    var s := "  ab  ";
    assert Text.IsWhitespace(s[0]) && Text.IsWhitespace(s[1]) && !Text.IsWhitespace(s[2]);
    assert s[1..][1..] == s[2..];
    assert Text.TrimStart(s[2..]) == s[2..];
  }

  lemma PaddedTermTrimEnd()
    ensures Text.TrimEnd("ab  ") == "ab"
  {
    var t := "ab  ";
    assert Text.IsWhitespace(t[3]) && Text.IsWhitespace(t[2]) && !Text.IsWhitespace(t[1]);
    assert t[..3][..2] == t[..2];
    assert Text.TrimEnd(t[..2]) == t[..2];
  }

  /** A whitespace-padded two-letter term is rejected although the raw text has six characters. */
  lemma SearchGuardRejectsPaddedShortTerm()
    ensures SearchGuard(Some("  ab  ")) == Failure(MsgTermoCurto)
  {
    PaddedTermTrimStart();
    PaddedTermTrimEnd();
    assert Text.Trim("  ab  ") == "ab";
  }

  /** What `/buscar` answers. `termoBusca` echoes the raw `q`; the search uses the trimmed term. */
  datatype SearchResponse =
    | SearchRejected(error: string)
    | SearchFailed(cause: QueryError)
    | SearchOk(termoBusca: string, totalResultados: nat, resultados: seq<SearchRow>)

  function Buscar(q: Option<string>, store: Store): (r: SearchResponse)
    ensures r.SearchRejected? <==> SearchGuard(q).Failure?
  {
    match SearchGuard(q)
    case Failure(e) => SearchRejected(e)
    case Success(term) =>
      match BuscarCTOsPorTexto(store, term)
      case Failure(e) => SearchFailed(e)
      case Success(rs) => SearchOk(q.value, |rs|, rs)
  }

  /**
   * A successful `/buscar` searched with the trimmed term, echoes the raw term,
   * and returns at most 20 rows, all counted.
   */
  lemma BuscarUsesTrimmedTerm(q: Option<string>, store: Store)
    requires Buscar(q, store).SearchOk?
    ensures q.Some? && |Text.Trim(q.value)| >= 3
    ensures Buscar(q, store).termoBusca == q.value
    ensures Buscar(q, store).resultados == BuscarCTOsPorTexto(store, Text.Trim(q.value)).value
    ensures Buscar(q, store).totalResultados == |Buscar(q, store).resultados| <= 20
  {
  }

  /** The `/area` guard: reject when one bound is falsy, otherwise forward the parseFloat values as they are. */
  function AreaGuard(north: Arg, south: Arg, east: Arg, west: Arg): (r: Result<Box, string>)
    ensures r.Failure? <==> north.Falsy? || south.Falsy? || east.Falsy? || west.Falsy?
    ensures r.Failure? ==> r.error == MsgAreaObrigatoria
    ensures r.Success? ==> r.value == Box(north.asFloat, south.asFloat, east.asFloat, west.asFloat)
  {
    if north.Falsy? || south.Falsy? || east.Falsy? || west.Falsy? then Failure(MsgAreaObrigatoria)
    else Success(Box(north.asFloat, south.asFloat, east.asFloat, west.asFloat))
  }

  /** The guard does not run validateBounds: it forwards a box that validateBounds rejects. */
  lemma AreaGuardSkipsBoundsValidation()
    ensures var inverted := AreaGuard(Truthy(Num(10.0), Num(10)), Truthy(Num(20.0), Num(20)),
                                      Truthy(Num(200.0), Num(200)), Truthy(Num(-200.0), Num(-200)));
      inverted.Success? && !BoundsVerdict(inverted.value).isValid
  {
    BoundsValidIff(10.0, 20.0, 200.0, -200.0);
  }

  // ---------------------------------------------------------------------------
  // /viability
  // ---------------------------------------------------------------------------

  const Viavel := "VIÁVEL"
  const NaoViavel := "NÃO VIÁVEL"

  /** `viabilidade_geral`: viable exactly when the proximity query found a node. */
  function ViabilidadeGeral(results: seq<Classified>): (v: string)
    ensures v == Viavel <==> |results| > 0
  {
    assert |Viavel| != |NaoViavel|;
    if |results| > 0 then Viavel else NaoViavel
  }

  /** The radius as the handler passes it on: the number 300 when the query string has none. */
  function RadiusParam(radius: Option<Arg>): (a: Arg)
    ensures radius.None? ==> ValidateRadius(a).isValid && ValidateRadius(a).radius == 300
  {
    match radius
    case None => Truthy(Num(DefaultRadius as real), Num(DefaultRadius))
    case Some(a) => a
  }

  /** The success body, without its timestamp. */
  datatype ViabilityReport = ViabilityReport(
    latitude: real, longitude: real, raioMetros: int, totalResultados: nat,
    ctoMaisProxima: Option<CtoRow>, viabilidadeGeral: string,
    resultados: seq<Classified>, recomendacoes: seq<string>)

  /** Why the handler answers 500: which call threw. */
  datatype Cause = ProximityFailed(message: string) | NearestFailed(error: QueryError) | NotAFunction

  /** What `/viability` answers: two kinds of 400, a 500, or the report. */
  datatype ViabilityResponse =
    | InvalidCoordinates(details: seq<string>)
    | InvalidRadius(detail: string)
    | InternalError(cause: Cause)
    | Report(report: ViabilityReport)

  /** The handler up to building its answer: an early answer, or everything the answer is built from. */
  datatype Progress =
    | Answered(response: ViabilityResponse)
    | Gathered(latitude: real, longitude: real, radius: int, results: seq<Classified>, nearest: Option<CtoRow>)

  /** Coordinates first, then the radius, then the proximity query, then the nearest-node query. */
  function Gather(lat: Arg, lng: Arg, radius: Option<Arg>, store: Store, dist: (Point, Point) -> real): (g: Progress)
    ensures !CoordinatesVerdict(lat, lng).isValid ==> g == Answered(InvalidCoordinates(CoordinatesVerdict(lat, lng).errors))
    ensures g.Gathered? ==>
      CoordinatesVerdict(lat, lng).isValid && store.Available? &&
      g.radius == ValidateRadius(RadiusParam(radius)).radius && 1 <= g.radius <= 2000 &&
      |g.results| <= ProximityLimit
  {
    var coords := CoordinatesVerdict(lat, lng);
    if !coords.isValid then Answered(InvalidCoordinates(coords.errors))
    else
      var rv := ValidateRadius(RadiusParam(radius));
      if !rv.isValid then Answered(InvalidRadius(rv.error.value))
      else
        CoordinatesValidIff(lat, lng);
        var latitude := lat.asFloat.value;
        var longitude := lng.asFloat.value;
        match CheckCTOsProximity(store, dist, latitude, longitude, rv.radius)
        case Failure(m) => Answered(InternalError(ProximityFailed(m)))
        case Success(results) =>
          match GetCTOMaisProxima(store, dist, latitude, longitude)
          case Failure(e) => Answered(InternalError(NearestFailed(e)))
          case Success(nearest) => Gathered(latitude, longitude, rv.radius, results, nearest)
  }

  /** The `/viability` handler as intended: the report carries `router.gerarRecomendacoes`' list. */
  function ViabilityEndpoint(lat: Arg, lng: Arg, radius: Option<Arg>, store: Store, dist: (Point, Point) -> real): (r: ViabilityResponse)
    ensures r.Report? <==> Gather(lat, lng, radius, store, dist).Gathered?
    ensures r.Report? ==>
      r.report.totalResultados == |r.report.resultados| <= ProximityLimit &&
      (r.report.viabilidadeGeral == Viavel <==> r.report.totalResultados > 0) &&
      r.report.recomendacoes == Recommendations(r.report.resultados)
  {
    match Gather(lat, lng, radius, store, dist)
    case Answered(r) => r
    case Gathered(latitude, longitude, finalRadius, results, nearest) =>
      Report(ViabilityReport(latitude, longitude, finalRadius, |results|, nearest,
                             ViabilidadeGeral(results), results, Recommendations(results)))
  }

  /**
   * The handler as written: `this.gerarRecomendacoes` is looked up on the
   * module's original export object, which has no such member, so building
   * the answer throws a TypeError and the catch block answers 500.
   */
  function ViabilityEndpointAsWritten(lat: Arg, lng: Arg, radius: Option<Arg>, store: Store, dist: (Point, Point) -> real): (r: ViabilityResponse)
    ensures !r.Report?
    ensures r == InternalError(NotAFunction) <==> Gather(lat, lng, radius, store, dist).Gathered?
  {
    match Gather(lat, lng, radius, store, dist)
    case Answered(r) => r
    case Gathered(_, _, _, _, _) => InternalError(NotAFunction)
  }

  /** Invalid coordinates are reported before, and regardless of, the radius. */
  lemma CoordinatesCheckedFirst(lat: Arg, lng: Arg, r1: Option<Arg>, r2: Option<Arg>, store: Store, dist: (Point, Point) -> real)
    requires !CoordinatesVerdict(lat, lng).isValid
    ensures ViabilityEndpoint(lat, lng, r1, store, dist) == InvalidCoordinates(CoordinatesVerdict(lat, lng).errors)
    ensures ViabilityEndpoint(lat, lng, r1, store, dist) == ViabilityEndpoint(lat, lng, r2, store, dist)
  {
  }

  /**
   * With valid coordinates and radius and a store whose rows are well formed,
   * the handler reaches the point where it builds its answer, searching
   * around the parsed coordinates within the validated radius.
   */
  lemma GatherReachesAnswer(lat: Arg, lng: Arg, radius: Option<Arg>, rows: seq<ViewRow>, dist: (Point, Point) -> real)
    requires CoordinatesVerdict(lat, lng).isValid && ValidateRadius(RadiusParam(radius)).isValid
    requires forall r :: r in rows ==> !ShortCoordinates(r)
    ensures var g := Gather(lat, lng, radius, Available(rows), dist);
      g.Gathered? &&
      lat == Truthy(Num(g.latitude), lat.asInt) && lng == Truthy(Num(g.longitude), lng.asInt) &&
      g.radius == ValidateRadius(RadiusParam(radius)).radius &&
      g.results == CheckCTOsProximity(Available(rows), dist, g.latitude, g.longitude, g.radius).value &&
      g.nearest == GetCTOMaisProxima(Available(rows), dist, g.latitude, g.longitude).value
  {
    CoordinatesValidIff(lat, lng);
    NearestIsClosest(rows, dist, lat.asFloat.value, lng.asFloat.value);
  }

  /**
   * A report is produced when coordinates and radius are valid and the
   * store's rows are well formed; it says VIÁVEL exactly when some node lies
   * within the radius, counts its results, and recommends from the nearest one.
   */
  lemma ViabilityReportsVerdict(lat: Arg, lng: Arg, radius: Option<Arg>, rows: seq<ViewRow>, dist: (Point, Point) -> real)
    requires CoordinatesVerdict(lat, lng).isValid && ValidateRadius(RadiusParam(radius)).isValid
    requires forall r :: r in rows ==> !ShortCoordinates(r)
    ensures ViabilityEndpoint(lat, lng, radius, Available(rows), dist).Report?
    ensures var rep := ViabilityEndpoint(lat, lng, radius, Available(rows), dist).report;
      rep.raioMetros == ValidateRadius(RadiusParam(radius)).radius &&
      1 <= rep.raioMetros <= 2000 &&
      rep.totalResultados == |rep.resultados| <= 20 &&
      rep.recomendacoes == Recommendations(rep.resultados) &&
      (rep.viabilidadeGeral == Viavel <==>
        exists r :: r in rows && WithinRadius(dist, Point(rep.longitude, rep.latitude), rep.raioMetros, r))
  {
    GatherReachesAnswer(lat, lng, radius, rows, dist);
    var g := Gather(lat, lng, radius, Available(rows), dist);
    var client := Point(g.longitude, g.latitude);
    assert g.results == Annotate(ProximityQuery(rows, dist, client, g.radius));
    ProximityNonEmpty(rows, dist, client, g.radius);
  }

  /** With no radius in the query string, valid coordinates are searched within 300 m. */
  lemma AbsentRadiusDefaults(lat: Arg, lng: Arg, rows: seq<ViewRow>, dist: (Point, Point) -> real)
    requires CoordinatesVerdict(lat, lng).isValid
    requires forall r :: r in rows ==> !ShortCoordinates(r)
    ensures ViabilityEndpoint(lat, lng, None, Available(rows), dist).Report?
    ensures ViabilityEndpoint(lat, lng, None, Available(rows), dist).report.raioMetros == 300
  {
    ViabilityReportsVerdict(lat, lng, None, rows, dist);
  }

  /**
   * As written the handler never reports: every request that the intended
   * handler would answer with a report gets a 500 instead; all others get the
   * same answer from both.
   */
  lemma ViabilityAsWrittenNeverReports(lat: Arg, lng: Arg, radius: Option<Arg>, store: Store, dist: (Point, Point) -> real)
    ensures !ViabilityEndpointAsWritten(lat, lng, radius, store, dist).Report?
    ensures ViabilityEndpoint(lat, lng, radius, store, dist).Report? ==>
      ViabilityEndpointAsWritten(lat, lng, radius, store, dist) == InternalError(NotAFunction)
    ensures !ViabilityEndpoint(lat, lng, radius, store, dist).Report? ==>
      ViabilityEndpointAsWritten(lat, lng, radius, store, dist) == ViabilityEndpoint(lat, lng, radius, store, dist)
  {
  }

  /**
   * Searching within at most the standard 300 m, every node found is ALTA,
   * and a non-empty report advises "within radius, capacity available".
   */
  lemma ViabilityWithinStandardRadius(lat: Arg, lng: Arg, radius: Option<Arg>, rows: seq<ViewRow>, dist: (Point, Point) -> real)
    requires CoordinatesVerdict(lat, lng).isValid && ValidateRadius(RadiusParam(radius)).isValid
    requires ValidateRadius(RadiusParam(radius)).radius <= 300
    requires forall r :: r in rows ==> !ShortCoordinates(r)
    ensures var rep := ViabilityEndpoint(lat, lng, radius, Available(rows), dist).report;
      (forall i :: 0 <= i < |rep.resultados| ==> rep.resultados[i].viabilidade == TierLabel(Alta)) &&
      (rep.resultados != [] ==> rep.recomendacoes == [MsgDentroDoRaio, MsgComCapacidade])
  {
    GatherReachesAnswer(lat, lng, radius, rows, dist);
    var g := Gather(lat, lng, radius, Available(rows), dist);
    var rep := ViabilityEndpoint(lat, lng, radius, Available(rows), dist).report;
    assert rep.resultados == g.results && rep.recomendacoes == Recommendations(g.results);
    ProximityResults(rows, dist, g.latitude, g.longitude, g.radius);
    RecommendationsForProximity(rows, dist, g.latitude, g.longitude, g.radius);
  }

  /** A raw value that parses to `x` under both parsers. */
  function NumberArg(x: real, n: int): Arg
  {
    Truthy(Num(x), Num(n))
  }

  /** The São Paulo view of the scenarios: one node. */
  function SaoPauloRows(): seq<ViewRow>
  {
    [ViewRow("CTO-SP-01", "Av. Paulista", "Point", Some([-46.6320, -23.5500]))]
  }

  /** The scenario's distance: the node is 150 m from the client. */
  function SaoPauloDistance(a: Point, b: Point): real
  {
    150.0
  }

  const SaoPauloLat := NumberArg(-23.550520, -23)
  const SaoPauloLng := NumberArg(-46.633308, -46)
  const SaoPauloRadius := Some(NumberArg(300.0, 300))

  lemma SaoPauloInputsValid()
    ensures CoordinatesVerdict(SaoPauloLat, SaoPauloLng).isValid
    ensures ValidateRadius(RadiusParam(SaoPauloRadius)) == RadiusValidation(true, 300, None)
    ensures forall r :: r in SaoPauloRows() ==> !ShortCoordinates(r)
  {
    CoordinatesValidIff(SaoPauloLat, SaoPauloLng);
  }

  /**
   * One well-formed node within a radius of at most 300 m: the intended
   * handler reports VIÁVEL, with the nearest node ALTA and the advice
   * "within radius, capacity available".
   */
  lemma NodeWithinStandardRadius(lat: Arg, lng: Arg, radius: Option<Arg>, rows: seq<ViewRow>, dist: (Point, Point) -> real, r: ViewRow)
    requires CoordinatesVerdict(lat, lng).isValid && ValidateRadius(RadiusParam(radius)).isValid
    requires ValidateRadius(RadiusParam(radius)).radius <= 300
    requires forall r :: r in rows ==> !ShortCoordinates(r)
    requires r in rows && HasLocation(r)
    requires dist(Point(lng.asFloat.value, lat.asFloat.value), Location(r)) <= ValidateRadius(RadiusParam(radius)).radius as real
    ensures var response := ViabilityEndpoint(lat, lng, radius, Available(rows), dist);
      response.Report? &&
      response.report.viabilidadeGeral == Viavel &&
      response.report.resultados != [] &&
      response.report.resultados[0].viabilidade == TierLabel(Alta) &&
      response.report.recomendacoes == [MsgDentroDoRaio, MsgComCapacidade]
  {
    ViabilityReportsVerdict(lat, lng, radius, rows, dist);
    ViabilityWithinStandardRadius(lat, lng, radius, rows, dist);
    GatherReachesAnswer(lat, lng, radius, rows, dist);
    var g := Gather(lat, lng, radius, Available(rows), dist);
    assert WithinRadius(dist, Point(g.longitude, g.latitude), g.radius, r);
  }

  /**
   * At (-23.550520, -46.633308) with radius 300 and the node 150 m away, the
   * intended handler reports VIÁVEL, with the node ALTA and the advice
   * "within radius, capacity available".
   */
  lemma SaoPauloScenario()
    ensures var response := ViabilityEndpoint(SaoPauloLat, SaoPauloLng, SaoPauloRadius, Available(SaoPauloRows()), SaoPauloDistance);
      response.Report? &&
      response.report.viabilidadeGeral == Viavel &&
      response.report.resultados != [] &&
      response.report.resultados[0].viabilidade == TierLabel(Alta) &&
      response.report.recomendacoes == [MsgDentroDoRaio, MsgComCapacidade]
  {
    SaoPauloInputsValid();
    NodeWithinStandardRadius(SaoPauloLat, SaoPauloLng, SaoPauloRadius, SaoPauloRows(), SaoPauloDistance, SaoPauloRows()[0]);
  }

  /** The same request, to the handler as written, gets a 500. */
  lemma SaoPauloScenarioAsWritten()
    ensures ViabilityEndpointAsWritten(SaoPauloLat, SaoPauloLng, SaoPauloRadius, Available(SaoPauloRows()), SaoPauloDistance) ==
      InternalError(NotAFunction)
  {
    SaoPauloScenario();
    ViabilityAsWrittenNeverReports(SaoPauloLat, SaoPauloLng, SaoPauloRadius, Available(SaoPauloRows()), SaoPauloDistance);
  }

  /** A radius of 5000 is refused with the "maximum" message and the fallback 300. */
  lemma RadiusTooLargeScenario(lat: Arg, lng: Arg, store: Store, dist: (Point, Point) -> real)
    requires CoordinatesVerdict(lat, lng).isValid
    ensures ViabilityEndpoint(lat, lng, Some(NumberArg(5000.0, 5000)), store, dist) == InvalidRadius(MsgRadiusTooLarge)
    ensures ValidateRadius(NumberArg(5000.0, 5000)).radius == 300
  {
  }

  /** An empty view: NÃO VIÁVEL, no nearest node, and the single "not found" recommendation. */
  lemma EmptyDatasetScenario(lat: Arg, lng: Arg, radius: Option<Arg>, dist: (Point, Point) -> real)
    requires CoordinatesVerdict(lat, lng).isValid && ValidateRadius(RadiusParam(radius)).isValid
    ensures ViabilityEndpoint(lat, lng, radius, Available([]), dist).Report?
    ensures var rep := ViabilityEndpoint(lat, lng, radius, Available([]), dist).report;
      rep.resultados == [] && rep.ctoMaisProxima.None? &&
      rep.viabilidadeGeral == NaoViavel && rep.recomendacoes == [MsgNenhumaCto]
  {
    UnlocatedViewReport(lat, lng, radius, [], dist);
  }

  /**
   * A view in which no row has coordinates: NÃO VIÁVEL, no nearest node, and
   * the single "not found" recommendation.
   */
  lemma UnlocatedViewReport(lat: Arg, lng: Arg, radius: Option<Arg>, rows: seq<ViewRow>, dist: (Point, Point) -> real)
    requires CoordinatesVerdict(lat, lng).isValid && ValidateRadius(RadiusParam(radius)).isValid
    requires forall r :: r in rows ==> r.coordinates.None?
    ensures ViabilityEndpoint(lat, lng, radius, Available(rows), dist).Report?
    ensures var rep := ViabilityEndpoint(lat, lng, radius, Available(rows), dist).report;
      rep.resultados == [] && rep.ctoMaisProxima.None? &&
      rep.viabilidadeGeral == NaoViavel && rep.recomendacoes == [MsgNenhumaCto]
  {
    GatherReachesAnswer(lat, lng, radius, rows, dist);
    var g := Gather(lat, lng, radius, Available(rows), dist);
    ProximityNonEmpty(rows, dist, Point(g.longitude, g.latitude), g.radius);
    NearestIsClosest(rows, dist, g.latitude, g.longitude);
  }
}
