# Fiber viability engine — a Dafny model

The EloFiber viability API answers "can fiber be installed at this point?".
A client sends a latitude, a longitude and a search radius in metres. The API
validates the values. It then asks the BigQuery view of network access nodes
(CTOs) for the nodes within the radius, nearest first. Each node found is
classified (ALTA, MÉDIA or BAIXA). The answer carries an overall verdict
(VIÁVEL or NÃO VIÁVEL), the nearest node and one or two recommendations.
Three more endpoints search the nodes by text, list the nodes inside a map
box, and report statistics about the view.

This project models the three files that hold that logic:

- `validation.dfy` (module `Validation`) models `services/validation.service.js`:
  - the coordinate check, the radius check and the map-box check;
  - a request value is either falsy or truthy, together with what JavaScript's
    `parseFloat`/`parseInt` return for it;
  - a JavaScript number is `NaN | Num(v)`, and every comparison with NaN is false;
  - the two checks that push onto an error list are methods, proved equal to a
    declarative specification: the messages of the failing checks, in order.
- `bigquery.dfy` (module `BigQuery`) models `services/bigquery.service.js`:
  - `classificarViabilidade`, and the `rows.map` that adds the label to each proximity row;
  - a reference model of each of the five SQL queries, as functions over an
    in-memory view (a sequence of rows in the store's order);
  - WHERE becomes a filter, ORDER BY a stable sort, LIMIT a prefix (where a
    query has LIMIT without ORDER BY, the prefix in store order is one of the
    outcomes BigQuery permits);
  - a geodesic distance is a given function of two points;
  - `OFFSET(1)` on a coordinate array shorter than two raises a query error,
    as it does in BigQuery.
- `text.dfy` (module `Text`) holds the string semantics the queries and the
  endpoints rely on: SQL `LOWER`, SQL `LIKE` with `%` and `_`, and
  JavaScript's `String.prototype.trim`.
- `viability.dfy` (module `Viability`) models `api/viability.js`:
  - `router.gerarRecomendacoes`, as a method that pushes messages, proved
    against a specification function;
  - the `/buscar` and `/area` input guards;
  - the `/viability` handler: validation order, the default radius, both
    queries, the verdict and the answer. A response is the value the handler
    would send, tagged with its kind: two kinds of 400, a 500, or the report.
- `wrappers.dfy` (module `Wrappers`) holds `Option` and `Result`.

In a few places the code does less, or other, than an API of this kind
suggests. The model follows the code:

- Input errors do not always come as a full list.
  - `/viability` stops at the first failing check, coordinates before radius.
  - The radius check reports one error.
- `/area` checks only that the four bounds are present. It never calls
  `validateBounds`, so a box with north below south reaches the query.
- The search-term check is written inline in the `/buscar` route, not in the
  validation service.
- A failing proximity query is rethrown with the prefix
  "Falha ao consultar CTOs: ". The other queries' failures pass through
  unchanged.
- The statistics percentage is SQL NULL on an empty view.
- An unproblematic request sends no recommendations at all, because of the
  defect recorded under Findings.

## Model

| member | source | states |
|---|---|---|
| `Validation.ValidateCoordinates` | services/validation.service.js:3-31 | the pushed error list and the result record equal the specification: one "required" error and no coordinates when a value is falsy, otherwise the messages of the failing checks in order, `isValid` iff none fails, and the parsed pair |
| `Validation.CoordinatesVerdict` | services/validation.service.js:3-31 | the specification of the check: valid iff the error list is empty, no coordinates iff a value is falsy, at most three errors; characterised by the lemmas below |
| `Validation.CoordinateErrors` | services/validation.service.js:14-24 | at most one error per check, so at most three |
| `Validation.CoordinatesMissing` | services/validation.service.js:6-9 | a falsy latitude or longitude gives invalid, exactly the one "obrigatórios" error, and no coordinates |
| `Validation.CoordinatesValidIff` | services/validation.service.js:11-30 | two truthy values are valid iff both parse to numbers within [-90, 90] and [-180, 180], bounds included; valid iff the error list is empty; the coordinates are the parsed pair |
| `Validation.CoordinateErrorCauses` | services/validation.service.js:14-24 | the NaN message appears iff a value is NaN; each range message appears iff that value is a number out of range, so NaN adds no range error; at most three errors |
| `Validation.CoordinateErrorsAccumulate` | services/validation.service.js:18-24 | both values out of range give exactly the latitude error and then the longitude error |
| `Validation.ValidateRadius` | services/validation.service.js:33-58 | a valid result has a radius in 1..2000; an invalid one has the fallback 300 and an error; valid iff there is no error |
| `Validation.RadiusCases` | services/validation.service.js:37-57 | valid iff falsy (radius 300) or parseInt gives an integer in 1..2000 (that integer); the "positive" error iff NaN or at most 0; the "maximum 2000m" error iff above 2000 |
| `Validation.ValidateBounds` | services/validation.service.js:60-83 | the pushed error list and the result equal the specification: the messages of the four failing checks in order, `isValid` iff none fails |
| `Validation.BoundsVerdict` | services/validation.service.js:60-83 | the specification of the check: valid iff the error list is empty, at most four errors; characterised by the lemmas below |
| `Validation.BoundsValidIff` | services/validation.service.js:63-81 | numeric bounds are valid iff north > south, east > west, north ≤ 90, south ≥ -90, east ≤ 180 and west ≥ -180; at most four errors |
| `Validation.BoundsErrorCause` | services/validation.service.js:63-77 | each of the four messages is in the list iff its own check fails |
| `Validation.BoundsMessageInjective` | services/validation.service.js:64-76 | the four messages are distinct, so each names one check |
| `Validation.BoundsAcceptNaN` | services/validation.service.js:63-81 | four NaN bounds pass every check, since each comparison with NaN is false |
| `Validation.FailingEmpty` | services/validation.service.js:79-81 | an accumulated error list is empty iff no check fails |
| `Validation.FailingAppend` | services/validation.service.js:61-77 | the errors of consecutive groups of checks are the first group's errors followed by the second's |
| `Text.Lower` | services/bigquery.service.js:190-191 | `LOWER` keeps the length, maps each character on its own, turns each ASCII capital into its own small letter (code + 32), and leaves no ASCII capital |
| `Text.LowerIdempotent` | services/bigquery.service.js:190-191 | lowering twice is lowering once |
| `Text.LowerIgnoresCase` | services/bigquery.service.js:190-191 | two strings that differ only in the case of ASCII letters lower to the same string, so the comparison ignores that case |
| `Text.LikeSubstring` | services/bigquery.service.js:190-198 | for a term without `%` or `_`, `s LIKE %term%` iff the term occurs in `s` |
| `Text.LikePrefix` | services/bigquery.service.js:190-191 | for a term without wildcards, `s LIKE term%` iff the term is a prefix of `s` |
| `Text.Like` | services/bigquery.service.js:190-191 | a pattern without `%` or `_` matches exactly the string equal to it; with wildcards, characterised by LikeSubstring and LikePrefix |
| `Text.TrimStart` | api/viability.js:77 | a suffix of the input that starts with a non-whitespace character; everything cut is whitespace |
| `Text.TrimEnd` | api/viability.js:77 | a prefix of the input that ends with a non-whitespace character; everything cut is whitespace |
| `Text.Trim` | api/viability.js:77 | never longer than the input, and a non-empty result neither starts nor ends with whitespace; characterised by the lemmas below |
| `Text.TrimIsSlice` | api/viability.js:77 | the trimmed text is one contiguous block of the input |
| `Text.TrimCutsLeadingWhitespace` | api/viability.js:77 | everything before the trimmed block is whitespace |
| `Text.TrimCutsTrailingWhitespace` | api/viability.js:77 | everything after the trimmed block is whitespace |
| `Text.TrimEnds` | api/viability.js:77 | non-empty trimmed text neither starts nor ends with whitespace |
| `Text.TrimIdempotent` | api/viability.js:83 | trimming twice is trimming once |
| `BigQuery.Filter` | services/bigquery.service.js:36-37 | WHERE keeps the rows satisfying the condition in their original order (a subsequence), each such row exactly as often as it occurs, and no other row |
| `BigQuery.SortBy` | services/bigquery.service.js:52 | ORDER BY yields a sorted permutation of its input |
| `BigQuery.InsertSorted` | services/bigquery.service.js:52 | inserting into a sorted sequence keeps it sorted |
| `BigQuery.Take` | services/bigquery.service.js:53 | LIMIT n yields the first min(n, length) rows |
| `BigQuery.TakeSortedIsLeast` | services/bigquery.service.js:52-53 | after ORDER BY, no row cut off by LIMIT has a smaller key than a row kept |
| `BigQuery.ClassifyTiers` | services/bigquery.service.js:207-217 | ALTA iff distance ≤ 300 and capacity > 0; MÉDIA without capacity iff distance ≤ 300 and capacity = 0; MÉDIA out of radius iff 300 < distance ≤ 500 and capacity > 0; BAIXA in every other case, negative capacity included |
| `BigQuery.Classify` | services/bigquery.service.js:207-217 | negative capacity and a distance beyond 500 m always give BAIXA; "sem capacidade" only at zero capacity within 300 m |
| `BigQuery.ClassificarViabilidade` | services/bigquery.service.js:207-217 | the label is the ALTA string iff distance ≤ 300 and capacity > 0, and the BAIXA string iff capacity < 0, distance > 500, or distance > 300 with capacity 0 |
| `BigQuery.TierLabelInjective` | services/bigquery.service.js:209-215 | the four labels are distinct, so a label determines its tier |
| `BigQuery.ClassifyMonotone` | services/bigquery.service.js:207-216 | with positive capacity fixed, a larger distance never gives a better tier |
| `BigQuery.ClassifyMonotoneInCapacity` | services/bigquery.service.js:207-216 | with the distance fixed, more capacity never gives a worse tier (negative capacity is BAIXA, the lowest) |
| `BigQuery.ClassifyExamples` | services/bigquery.service.js:208-216 | 250 m, 350 m and 550 m with capacity 24 give ALTA, MÉDIA out of radius and BAIXA |
| `BigQuery.Candidates` | services/bigquery.service.js:24-51 | every candidate is within the radius and carries the fixed capacity 48 / 24 and status ATIVA |
| `BigQuery.CandidatesFrom` | services/bigquery.service.js:29-51 | a candidate is exactly the projection of a view row with a coordinate pair within the radius, longitude from element 0 and latitude from element 1 |
| `BigQuery.ProximityQuery` | services/bigquery.service.js:50-53 | at most 20 rows, in ascending distance, drawn from the candidates, exactly min(20, candidates) of them |
| `BigQuery.ProximityClosest` | services/bigquery.service.js:51-53 | no candidate left out is nearer than a returned row; returned rows are within the radius with capacity 24 and status ATIVA |
| `BigQuery.ProximityNonEmpty` | services/bigquery.service.js:51 | the proximity query returns a row iff some view row lies within the radius |
| `BigQuery.Annotate` | services/bigquery.service.js:71-74 | the map keeps the count, the order and every row, and adds the label computed from that row's own distance and capacity |
| `BigQuery.CheckCTOsProximity` | services/bigquery.service.js:66-78 | fails iff the store fails, with "Falha ao consultar CTOs: " followed by the store's message; otherwise at most 20 results |
| `BigQuery.ProximityResults` | services/bigquery.service.js:36-74 | at most 20 results, ascending by distance, each within the radius, never labelled "sem capacidade", ALTA iff within 300 m |
| `BigQuery.PlaceholderCapacityLabel` | services/bigquery.service.js:48 | with available capacity 24 the label is never "sem capacidade", and it is ALTA iff the distance is at most 300 |
| `BigQuery.NearestOrder` | services/bigquery.service.js:94-101 | the rows with non-null coordinates, permuted into ascending distance |
| `BigQuery.NearestOrderHead` | services/bigquery.service.js:95-102 | the first row of the distance order has coordinates, and no row with coordinates is nearer |
| `BigQuery.NearestOrderEmpty` | services/bigquery.service.js:94 | the distance order is empty iff no row has coordinates |
| `BigQuery.GetCTOMaisProxima` | services/bigquery.service.js:84-114 | fails iff the store fails, passing its error on, or a row has non-null coordinates too short for `OFFSET(1)`; a node found is the projection of a view row with a coordinate pair; characterised further by NearestIsClosest |
| `BigQuery.NearestIsClosest` | services/bigquery.service.js:84-114 | the nearest query succeeds; it gives null iff no row has coordinates, otherwise the projection of a row that no row with coordinates is nearer than |
| `BigQuery.NearestOfEmpty` | services/bigquery.service.js:113 | on an empty view the nearest query gives null |
| `BigQuery.GetCTOsPorArea` | services/bigquery.service.js:119-150 | fails iff the store fails, passing its error on, or a row has non-null coordinates too short for `OFFSET(1)`; otherwise at most 100 rows; characterised further by AreaWithinBox |
| `BigQuery.AreaWithinBox` | services/bigquery.service.js:119-150 | the area query succeeds with min(100, rows in the box) rows, each the projection of a view row inside the box, bounds included; when at most 100 lie inside, every one of them is returned |
| `BigQuery.AreaDrawsFromBox` | services/bigquery.service.js:119-133 | whichever rows LIMIT 100 keeps, the result is a sub-multiset of the in-box rows' projections, so no row appears more often than it occurs in the box |
| `BigQuery.LowerPattern` | services/bigquery.service.js:190-198 | lowering `%term%` is wrapping the lowered term |
| `BigQuery.TextHit` | services/bigquery.service.js:190-192 | a row without coordinates never matches; the `LIKE` part is characterised by TextHitIsSubstring |
| `BigQuery.TextHitIsSubstring` | services/bigquery.service.js:190-198 | for a term without wildcards, a row matches iff its lowered name or description contains the lowered term and it has coordinates |
| `BigQuery.BuscarCTOsPorTexto` | services/bigquery.service.js:181-205 | fails iff the store fails, passing its error on, or a matching row has non-null coordinates too short for `OFFSET(1)`; otherwise at most 20 rows; characterised further by TextSearchMatches |
| `BigQuery.TextSearchMatches` | services/bigquery.service.js:181-205 | the text search gives min(20, matching rows) rows, each the projection of a view row with coordinates whose lowered name or description contains the lowered term; when at most 20 match, every one of them is returned |
| `BigQuery.TextSearchDrawsFromHits` | services/bigquery.service.js:181-193 | whichever rows LIMIT 20 keeps, the result is a sub-multiset of the matching rows' projections, so no row appears more often than it matches |
| `BigQuery.NamesBound` | services/bigquery.service.js:158-159 | there are no more distinct names than rows, and at least one when there are rows |
| `BigQuery.GetEstatisticasCTOs` | services/bigquery.service.js:155-176 | fails iff the store fails, passing its error on; otherwise the row count, no more distinct names than rows, and a percentage that is NULL iff the view is empty |
| `BigQuery.PercentWithLocation` | services/bigquery.service.js:161-165 | NULL iff there are no rows, otherwise a value in [0, 100] |
| `BigQuery.StatisticsOfStore` | services/bigquery.service.js:155-176 | COUNT(*) is the row count, COUNT(DISTINCT nome) is at most that, and the percentage is NULL iff the view is empty |
| `BigQuery.PercentBounds` | services/bigquery.service.js:161-165 | the percentage lies in [0, 100] and is 100 iff every row has a coordinate pair |
| `BigQuery.StatisticsFixture` | services/bigquery.service.js:157-165 | four rows, two names and three located rows give exactly (4, 2, 75) |
| `Viability.GerarRecomendacoes` | api/viability.js:146-167 | the pushed list equals the specification: the "not found" note for no results, otherwise two notes decided by the first result |
| `Viability.Recommendations` | api/viability.js:146-167 | one string for an empty list and two otherwise; the "not found" note appears iff the list is empty; case by case in RecommendationCases |
| `Viability.RecommendationCases` | api/viability.js:147-164 | empty input gives exactly the "not found" note; any other input exactly two strings; within 300 m with capacity, within 300 m without, and beyond 300 m give their own two notes |
| `Viability.RecommendationsDependOnNearest` | api/viability.js:151-166 | two lists with the same first element get the same recommendations |
| `Viability.RecommendationTextsDistinct` | api/viability.js:148-163 | the six recommendation texts have lengths that tell them apart |
| `Viability.RecommendationsWithCapacity` | api/viability.js:154-160 | if the first result has free capacity the no-capacity warning never appears, and the advice is "within radius, capacity available" iff that result is ALTA |
| `Viability.RecommendationsForProximity` | api/viability.js:154-160 | for proximity results the no-capacity warning never appears, and a non-empty result gets "within radius, capacity available" iff its first node is ALTA |
| `Viability.SearchGuard` | api/viability.js:77-83 | accepts iff `q` is present and at least 3 characters long once trimmed, passing on the trimmed term; otherwise the "pelo menos 3 caracteres" error |
| `Viability.SearchTermTrimmed` | api/viability.js:77-83 | an accepted term has at least 3 characters and no whitespace at either end |
| `Viability.SearchTermStable` | api/viability.js:83 | an accepted term is its own trim |
| `Viability.PaddedTermTrimStart` | api/viability.js:77 | trimming the front of "  ab  " leaves "ab  " |
| `Viability.PaddedTermTrimEnd` | api/viability.js:77 | trimming the back of "ab  " leaves "ab" |
| `Viability.SearchGuardRejectsPaddedShortTerm` | api/viability.js:77-81 | "  ab  " is rejected although it has six characters |
| `Viability.Buscar` | api/viability.js:73-95 | `/buscar` rejects with 400 iff the guard rejects |
| `Viability.BuscarUsesTrimmedTerm` | api/viability.js:77-90 | a successful `/buscar` searched with the trimmed term, echoes the raw term, and returns at most 20 rows, all counted |
| `Viability.AreaGuard` | api/viability.js:103-114 | rejects iff one of the four bounds is falsy, with the "obrigatórias" message; otherwise forwards the four parseFloat values unchanged |
| `Viability.AreaGuardSkipsBoundsValidation` | api/viability.js:103-116 | the guard forwards a box (north below south, east and west out of range) that validateBounds rejects |
| `Viability.ViabilidadeGeral` | api/viability.js:57 | VIÁVEL iff the proximity result list is non-empty |
| `Viability.CoordinatesCheckedFirst` | api/viability.js:19-33 | invalid coordinates give the 400 with their error list, whatever the radius |
| `Viability.Gather` | api/viability.js:16-46 | invalid coordinates end the handler with their 400; reaching the answer needs valid coordinates and a reachable store, and uses the validated radius (1..2000) and at most 20 results |
| `Viability.GatherReachesAnswer` | api/viability.js:16-46 | valid coordinates and radius, and a well-formed store, lead to both queries run on the parsed coordinates and the validated radius |
| `Viability.ViabilityReportsVerdict` | api/viability.js:35-59 | the intended handler reports: the radius is the validated one (1..2000), the count is the result length (at most 20), the recommendations come from the results, and VIÁVEL iff some node lies within the radius |
| `Viability.ViabilityEndpoint` | api/viability.js:14-70 | with line 59 calling the router's helper: a report iff both checks pass and both queries succeed; its count is the result length (at most 20), VIÁVEL iff the count is positive, and the recommendations come from the results |
| `Viability.AbsentRadiusDefaults` | api/viability.js:16 | with no radius in the query, valid coordinates are searched within 300 m |
| `Viability.RadiusParam` | api/viability.js:16 | an absent radius becomes the number 300, which the radius check accepts as 300 |
| `Viability.ViabilityWithinStandardRadius` | api/viability.js:39-59 | with a radius of at most 300 every node found is ALTA, and a non-empty report advises "within radius, capacity available" |
| `Viability.NodeWithinStandardRadius` | api/viability.js:39-59 | one node within a radius of at most 300 m gives a VIÁVEL report whose first node is ALTA, with the advice "within radius, capacity available" |
| `Viability.SaoPauloScenario` | api/viability.js:14-60 | at (-23.550520, -46.633308), radius 300, a node at 150 m: VIÁVEL, ALTA, advice "CTO dentro do raio padrão" and "Capacidade disponível" |
| `Viability.SaoPauloScenarioAsWritten` | api/viability.js:59-69 | the same request to the handler as written gets the 500 |
| `Viability.RadiusTooLargeScenario` | api/viability.js:27-33 | a radius of 5000 gives the 400 with "Raio máximo permitido é 2000m", and validation suggests 300 |
| `Viability.EmptyDatasetScenario` | api/viability.js:39-59 | an empty view: NÃO VIÁVEL, no nearest node, and only the "not found" recommendation |
| `Viability.UnlocatedViewReport` | api/viability.js:39-59 | a view in which no row has coordinates: NÃO VIÁVEL, no nearest node, and only the "not found" recommendation |
| `Viability.ViabilityAsWrittenNeverReports` | api/viability.js:59-69 | the handler as written never reports: each request the intended handler would report on gets the 500 instead, and every other request gets the same answer from both |
| `Viability.ViabilityEndpointAsWritten` | api/viability.js:14-70 | never a report; the 500 for the missing function exactly when the handler reaches line 59 |

## Left out

- HTTP and Express are not modelled. That covers routing, request logging, status codes as numbers, and the JSON layout with its titles ("Coordenadas inválidas", "Erro interno do servidor").
  - Each response is a datatype alternative instead.
  - Express query values that are arrays are not modelled.
- Asynchronous job creation, `console` output and timestamps are left out. They carry no logic the answers depend on.
- The `/estatisticas` route is not modelled. It answers `success: true` with the statistics record and a timestamp, or a 500 with the error's message when the query fails. The statistics themselves, and the query's failure, are modelled by `GetEstatisticasCTOs`.
- What `/area` does after its guard is not modelled. It passes the four parseFloat values to the area query, and a NaN parameter has store-specific semantics. The area query is modelled on numeric bounds.
- `ST_DISTANCE`, `ST_DWITHIN` and `ST_GEOGPOINT` are external floating-point geography. A distance is a given function of two points, and `ST_DWITHIN` is read as "distance ≤ radius".
- `ST_GEOGPOINT` raises an error for a latitude outside [-90, 90]. The proximity and nearest-node queries build a point from every row's coordinates, so a row with such a latitude makes them fail. The model does not fail for it; only the `OFFSET(1)` error on too short a coordinate array is modelled.
- Floating point is modelled as exact reals:
  - the distances;
  - the statistics AVG times 100, as the exact ratio;
  - the parsed numbers, with no Infinity (for example "1e999").
- The parsers are abstract. `parseFloat` and `parseInt` are not reproduced; a request value carries what each returns.
- The code that surrounds the core is not modelled, since it is I/O and process lifecycle:
  - app.js (middleware, server start and signals);
  - config/bigquery.config.js (environment and credentials);
  - api/health.js and api/diagnostic.js (process metrics and live probes);
  - the live-query scripts test-view.js and test-bigquery.js.
- Text.Lower: applies only to ASCII letters. BigQuery's `LOWER` also lowers non-ASCII letters such as "Á".
- Text.Like: has no backslash escapes. The user's term is not escaped before it reaches `LIKE`, so `%` or `_` typed by the user act as wildcards there.
- BigQuery.TextSearchMatches: requires a term without `%` or `_`. For such terms the `LIKE` pattern is a plain substring test; other terms are modelled by `Text.Like` but not characterised.
- BigQuery.SortBy: breaks ties in the store's row order. BigQuery leaves that order unspecified, so this is one permitted outcome, not the only one.
- BigQuery.GetCTOsPorArea: returns the first 100 rows inside the box in store order. The query has LIMIT without ORDER BY, so BigQuery may return any 100 of them; the prefix is one permitted outcome. The area query's contracts therefore state which rows are returned only when at most 100 lie inside; beyond that they state that no row is returned more often than it occurs.
- BigQuery.BuscarCTOsPorTexto: returns the first 20 matching rows in store order. The query has LIMIT without ORDER BY, so BigQuery may return any 20 of them; the prefix is one permitted outcome.
- Viability.Gather: both queries read the same `Store` value. In the code they are two separate jobs, so the nearest-node query can fail after the proximity query succeeded. The model does not capture that; a 500 caused by the nearest-node query comes only from the `OFFSET(1)` error.
- BigQuery.ViewRow: `nome` and `descricao` are never NULL here. For a NULL `nome` or `descricao`, SQL comparisons and `COUNT(DISTINCT)` treat NULLs differently.
- Viability.SearchGuard: counts Unicode scalar values. JavaScript's `length` counts UTF-16 code units, so a term with characters outside the Basic Multilingual Plane can be accepted by the JavaScript code and rejected here.

## Findings

| source | as written | input that shows it | evidently intended | confidence | as-written member | corrected member |
|---|---|---|---|---|---|---|
| api/viability.js:59 | The report calls its recommendation helper through `this`. Inside a module-level arrow function, `this` is the original export object, but the helper is attached to the router (line 146), which replaces the exports at line 169. The call raises a TypeError, and the catch block at lines 62-69 answers 500. | any request with valid coordinates and radius against a reachable store, e.g. lat=-23.550520, lng=-46.633308, radius=300 with one node 150 m away | build the report with `router.gerarRecomendacoes(ctoResults)` and answer 200 | high; not executed | `Viability.ViabilityAsWrittenNeverReports` | `Viability.ViabilityReportsVerdict` |
