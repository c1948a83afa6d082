/**
 * Model of services/bigquery.service.js: the viability classification, the
 * post-processing of the proximity rows, and reference models of what the
 * five SQL queries return.
 *
 * The view is an in-memory sequence of rows in the store's natural order.
 * Geodesic distance (ST_DISTANCE / ST_DWITHIN) is not computed here: it is a
 * given function from the client point and a node's point to metres.
 */
module BigQuery {
  import opened Wrappers
  import Text

  // ---------------------------------------------------------------------------
  // The view and the store
  // ---------------------------------------------------------------------------

  /** A row of the viability view: `geometry.coordinates` may be NULL; [0] is longitude, [1] latitude. */
  datatype ViewRow = ViewRow(nome: string, descricao: string, geometryType: string, coordinates: Option<seq<real>>)

  /** A geographic point, longitude first as ST_GEOGPOINT takes it. */
  datatype Point = Point(longitude: real, latitude: real)

  /** The external store: its rows, or the error it raises instead of answering. */
  datatype Store = Available(rows: seq<ViewRow>) | Unreachable(message: string)

  /** Why a query fails: the store's own error, or `coordinates[OFFSET(k)]` on too short an array. */
  datatype QueryError = StoreError(message: string) | OffsetOutOfRange

  /** The row carries a usable coordinate pair. */
  predicate HasLocation(r: ViewRow)
  {
    r.coordinates.Some? && |r.coordinates.value| >= 2
  }

  /** The row's coordinates are not NULL but too short for `OFFSET(1)`, which then raises an error. */
  predicate ShortCoordinates(r: ViewRow)
  {
    r.coordinates.Some? && |r.coordinates.value| < 2
  }

  function Location(r: ViewRow): Point
    requires HasLocation(r)
  {
    Point(r.coordinates.value[0], r.coordinates.value[1])
  }

  /** Distance in metres from the client to the row's point (0 for a row without one, which no query uses). */
  function RowDistance(dist: (Point, Point) -> real, client: Point, r: ViewRow): real
  {
    if HasLocation(r) then dist(client, Location(r)) else 0.0
  }

  // ---------------------------------------------------------------------------
  // Relational building blocks: WHERE, ORDER BY, LIMIT
  // ---------------------------------------------------------------------------

  /** `r` is `s` with some elements left out, the rest in their original order. */
  predicate Subsequence<T(==)>(r: seq<T>, s: seq<T>)
    decreases |s|
  {
    r == [] ||
    (s != [] && ((r[0] == s[0] && Subsequence(r[1..], s[1..])) || Subsequence(r, s[1..])))
  }

  /**
   * WHERE: the rows satisfying `p`, in their original order. Each row that
   * satisfies `p` is kept as often as it occurs, and no other row is kept.
   */
  function Filter<T(==,!new)>(s: seq<T>, p: T -> bool): (r: seq<T>)
    ensures |r| <= |s|
    ensures forall x :: x in r <==> x in s && p(x)
    ensures multiset(r) <= multiset(s)
    ensures forall x :: multiset(r)[x] == if p(x) then multiset(s)[x] else 0
    ensures Subsequence(r, s)
  {
    if s == [] then []
    else
      var rest := Filter(s[1..], p);
      assert s == [s[0]] + s[1..];
      if p(s[0]) then [s[0]] + rest else rest
  }

  /** An element of a filtered sequence comes from the original and satisfies the condition. */
  lemma FilterElement<T(!new)>(s: seq<T>, p: T -> bool, x: T)
    requires x in Filter(s, p)
    ensures x in s && p(x)
  {
  }

  /** LIMIT n. */
  function Take<T>(s: seq<T>, n: nat): (r: seq<T>)
    ensures |r| == if |s| <= n then |s| else n
    ensures r == s[..|r|]
    ensures multiset(r) <= multiset(s)
  {
    if |s| <= n then s
    else
      assert s == s[..n] + s[n..];
      s[..n]
  }

  /** An element of a limited sequence is an element of the original. */
  lemma TakeElement<T>(s: seq<T>, n: nat, x: T)
    requires x in Take(s, n)
    ensures x in s
  {
    assert x in multiset(Take(s, n));
  }

  predicate SortedBy<T>(s: seq<T>, key: T -> real)
  {
    forall i, j :: 0 <= i < j < |s| ==> key(s[i]) <= key(s[j])
  }

  /** Inserts `x` before the first element whose key is not smaller, so earlier rows win ties. */
  function Insert<T>(x: T, s: seq<T>, key: T -> real): (r: seq<T>)
    ensures multiset(r) == multiset(s) + multiset{x}
    ensures |r| == |s| + 1
  {
    if s == [] || key(x) <= key(s[0]) then [x] + s
    else
      assert s == [s[0]] + s[1..];
      [s[0]] + Insert(x, s[1..], key)
  }

  /** Inserting into a sorted sequence keeps it sorted. */
  lemma {:induction false} InsertSorted<T>(x: T, s: seq<T>, key: T -> real)
    requires SortedBy(s, key)
    ensures SortedBy(Insert(x, s, key), key)
  {
    if s == [] || key(x) <= key(s[0]) {
      var r := [x] + s;
      forall i, j | 0 <= i < j < |r| ensures key(r[i]) <= key(r[j]) {
        if i == 0 {
          assert r[j] == s[j - 1];
          assert key(s[0]) <= key(s[j - 1]);
        } else {
          assert r[i] == s[i - 1] && r[j] == s[j - 1];
        }
      }
    } else {
      var tail := s[1..];
      assert SortedBy(tail, key) by {
        forall i, j | 0 <= i < j < |tail| ensures key(tail[i]) <= key(tail[j]) {
          assert tail[i] == s[i + 1] && tail[j] == s[j + 1];
        }
      }
      InsertSorted(x, tail, key);
      var rest := Insert(x, tail, key);
      var r := [s[0]] + rest;
      forall j | 0 <= j < |rest| ensures key(s[0]) <= key(rest[j]) {
        assert rest[j] in multiset(rest);
        if rest[j] != x {
          assert rest[j] in multiset(tail);
          var k :| 0 <= k < |tail| && tail[k] == rest[j];
          assert s[k + 1] == rest[j];
        }
      }
      forall i, j | 0 <= i < j < |r| ensures key(r[i]) <= key(r[j]) {
        if i == 0 {
          assert r[j] == rest[j - 1];
        } else {
          assert r[i] == rest[i - 1] && r[j] == rest[j - 1];
        }
      }
    }
  }

  /** ORDER BY key: a stable sort, so rows with equal keys keep the store's order. */
  function SortBy<T>(s: seq<T>, key: T -> real): (r: seq<T>)
    ensures SortedBy(r, key)
    ensures multiset(r) == multiset(s)
    ensures |r| == |s|
  {
    if s == [] then []
    else
      assert s == [s[0]] + s[1..];
      var rest := SortBy(s[1..], key);
      InsertSorted(s[0], rest, key);
      Insert(s[0], rest, key)
  }

  /** The first element of a sorted sequence has the least key of all its elements. */
  lemma SortedHeadIsLeast<T>(s: seq<T>, key: T -> real, y: T)
    requires SortedBy(s, key) && s != [] && y in s
    ensures key(s[0]) <= key(y)
  {
    var j :| 0 <= j < |s| && s[j] == y;
    if j > 0 {
      assert key(s[0]) <= key(s[j]);
    }
  }

  /** Any first n of a sorted sequence are no further than any of the rest. */
  lemma {:induction false} TakeSortedIsLeast<T>(s: seq<T>, key: T -> real, n: nat)
    requires SortedBy(s, key)
    ensures forall x, y :: x in Take(s, n) && y in multiset(s) - multiset(Take(s, n)) ==> key(x) <= key(y)
  {
    var t := Take(s, n);
    if |s| > n {
      assert s == t + s[n..];
      assert multiset(s) - multiset(t) == multiset(s[n..]);
      forall x, y | x in t && y in multiset(s) - multiset(t) ensures key(x) <= key(y) {
        var i :| 0 <= i < |t| && t[i] == x;
        assert y in s[n..];
        var j :| 0 <= j < |s[n..]| && s[n..][j] == y;
        assert s[i] == x && s[n + j] == y;
      }
    } else {
      assert t == s;
    }
  }

  // ---------------------------------------------------------------------------
  // classificarViabilidade
  // ---------------------------------------------------------------------------

  const StandardRadius := 300.0
  const ExtendedRadius := 500.0

  /** The four viability tiers, from best to worst. */
  datatype Tier = Alta | MediaSemCapacidade | MediaForaDoRaio | Baixa

  function TierLabel(t: Tier): string
  {
    match t
    case Alta => "ALTA - Dentro do raio e com capacidade"
    case MediaSemCapacidade => "MÉDIA - Dentro do raio mas sem capacidade"
    case MediaForaDoRaio => "MÉDIA - Fora do raio padrão, com capacidade"
    case Baixa => "BAIXA - Fora do raio ou sem capacidade"
  }

  /** How good a tier is: 3 for ALTA, 2 for either MÉDIA, 1 for BAIXA. */
  function Rank(t: Tier): nat
  {
    match t
    case Alta => 3
    case MediaSemCapacidade => 2
    case MediaForaDoRaio => 2
    case Baixa => 1
  }

  /** classificarViabilidade as a tier: the if / else-if chain on distance and available capacity. */
  function Classify(distancia: real, capacidadeDisponivel: int): (t: Tier)
    ensures capacidadeDisponivel < 0 ==> t == Baixa
    ensures distancia > ExtendedRadius ==> t == Baixa
    ensures t == MediaSemCapacidade ==> capacidadeDisponivel == 0 && distancia <= StandardRadius
  {
    if distancia <= StandardRadius && capacidadeDisponivel > 0 then Alta
    else if distancia <= StandardRadius && capacidadeDisponivel == 0 then MediaSemCapacidade
    else if distancia <= ExtendedRadius && capacidadeDisponivel > 0 then MediaForaDoRaio
    else Baixa
  }

  /** classificarViabilidade: the label of the tier; the ALTA and BAIXA labels are given exactly when their conditions hold. */
  function ClassificarViabilidade(distancia: real, capacidadeDisponivel: int): (v: string)
    ensures v == TierLabel(Alta) <==> distancia <= 300.0 && capacidadeDisponivel > 0
    ensures v == TierLabel(Baixa) <==>
      capacidadeDisponivel < 0 || distancia > 500.0 || (distancia > 300.0 && capacidadeDisponivel == 0)
  {
    var t := Classify(distancia, capacidadeDisponivel);
    TierLabelInjective(t, Alta);
    TierLabelInjective(t, Baixa);
    TierLabel(t)
  }

  /** Each tier is reached under exactly one condition; negative capacity is always BAIXA. */
  lemma ClassifyTiers(d: real, c: int)
    ensures Classify(d, c) == Alta <==> d <= 300.0 && c > 0
    ensures Classify(d, c) == MediaSemCapacidade <==> d <= 300.0 && c == 0
    ensures Classify(d, c) == MediaForaDoRaio <==> 300.0 < d <= 500.0 && c > 0
    ensures Classify(d, c) == Baixa <==> c < 0 || d > 500.0 || (d > 300.0 && c == 0)
  {
  }

  /** The labels are distinct, so the label determines the tier. */
  lemma TierLabelInjective(t: Tier, u: Tier)
    ensures TierLabel(t) == TierLabel(u) ==> t == u
  {
    assert |TierLabel(Alta)| == 38 && |TierLabel(MediaSemCapacidade)| == 41;
    assert |TierLabel(MediaForaDoRaio)| == 43 && |TierLabel(Baixa)| == 38;
    assert TierLabel(Alta)[0] == 'A' && TierLabel(Baixa)[0] == 'B';
  }

  /** With positive capacity fixed, moving further away never improves the tier. */
  lemma ClassifyMonotone(d1: real, d2: real, c: int)
    requires c > 0 && d1 <= d2
    ensures Rank(Classify(d2, c)) <= Rank(Classify(d1, c))
  {
  }

  /** With the distance fixed, more capacity never worsens the tier. */
  lemma ClassifyMonotoneInCapacity(d: real, c1: int, c2: int)
    requires c1 <= c2
    ensures Rank(Classify(d, c1)) <= Rank(Classify(d, c2))
  {
  }

  /** 250 m, 350 m and 550 m with capacity: ALTA, then MÉDIA, then BAIXA. */
  lemma ClassifyExamples()
    ensures ClassificarViabilidade(250.0, 24) == "ALTA - Dentro do raio e com capacidade"
    ensures ClassificarViabilidade(350.0, 24) == "MÉDIA - Fora do raio padrão, com capacidade"
    ensures ClassificarViabilidade(550.0, 24) == "BAIXA - Fora do raio ou sem capacidade"
  {
  }

  // ---------------------------------------------------------------------------
  // checkCTOsProximity
  // ---------------------------------------------------------------------------

  const ProximityLimit := 20
  const PlaceholderCapacidadeTotal := 48
  const PlaceholderCapacidadeDisponivel := 24
  const StatusAtiva := "ATIVA"
  const ProximityFailurePrefix := "Falha ao consultar CTOs: "

  /** A row of the proximity query's result set. */
  datatype ProximityRow = ProximityRow(
    ctoId: string, nome: string, endereco: string, distanciaMetros: real,
    longitudeCto: real, latitudeCto: real,
    capacidadeTotal: int, capacidadeDisponivel: int, status: string)

  /** The row the query's SELECT list builds from a view row at distance `d`. */
  function ProximityRowOf(r: ViewRow, d: real): (p: ProximityRow)
    requires HasLocation(r)
  {
    ProximityRow(r.nome, r.nome, r.descricao, d, Location(r).longitude, Location(r).latitude,
                 PlaceholderCapacidadeTotal, PlaceholderCapacidadeDisponivel, StatusAtiva)
  }

  /** A view row the proximity query keeps: a coordinate pair within `radius` metres (ST_DWITHIN). */
  predicate WithinRadius(dist: (Point, Point) -> real, client: Point, radius: int, r: ViewRow)
  {
    HasLocation(r) && dist(client, Location(r)) <= radius as real
  }

  /** The rows that pass the query's WHERE clauses, projected, in store order. */
  function Candidates(rows: seq<ViewRow>, dist: (Point, Point) -> real, client: Point, radius: int): (c: seq<ProximityRow>)
    ensures |c| <= |rows|
    ensures forall p :: p in c ==>
      p.distanciaMetros <= radius as real &&
      p.capacidadeTotal == 48 && p.capacidadeDisponivel == 24 && p.status == "ATIVA"
  {
    if rows == [] then []
    else
      var r := rows[0];
      (if WithinRadius(dist, client, radius, r) then [ProximityRowOf(r, dist(client, Location(r)))] else []) +
      Candidates(rows[1..], dist, client, radius)
  }

  /** A candidate is exactly the projection of a view row within the radius. */
  lemma {:induction false} CandidatesFrom(rows: seq<ViewRow>, dist: (Point, Point) -> real, client: Point, radius: int, p: ProximityRow)
    ensures p in Candidates(rows, dist, client, radius) <==>
      exists r :: r in rows && WithinRadius(dist, client, radius, r) && p == ProximityRowOf(r, dist(client, Location(r)))
  {
    if rows != [] {
      CandidatesFrom(rows[1..], dist, client, radius, p);
      assert forall r :: r in rows <==> r == rows[0] || r in rows[1..];
    }
  }

  function DistanceOf(p: ProximityRow): real
  {
    p.distanciaMetros
  }

  /** The proximity query: candidates ordered by distance, at most 20. */
  function ProximityQuery(rows: seq<ViewRow>, dist: (Point, Point) -> real, client: Point, radius: int): (q: seq<ProximityRow>)
    ensures |q| <= ProximityLimit
    ensures SortedBy(q, DistanceOf)
    ensures multiset(q) <= multiset(Candidates(rows, dist, client, radius))
    ensures |q| == if |Candidates(rows, dist, client, radius)| <= 20 then |Candidates(rows, dist, client, radius)| else 20
  {
    var sorted := SortBy(Candidates(rows, dist, client, radius), DistanceOf);
    var q := Take(sorted, ProximityLimit);
    assert sorted == q + sorted[|q|..];
    q
  }

  /**
   * The proximity query returns the closest candidates: every candidate it
   * leaves out is at least as far as every row it returns; every returned row
   * is within the radius and carries the fixed placeholder capacity.
   */
  lemma ProximityClosest(rows: seq<ViewRow>, dist: (Point, Point) -> real, client: Point, radius: int)
    ensures forall x, y ::
      (x in ProximityQuery(rows, dist, client, radius) &&
       y in multiset(Candidates(rows, dist, client, radius)) - multiset(ProximityQuery(rows, dist, client, radius))) ==>
      x.distanciaMetros <= y.distanciaMetros
    ensures forall x :: x in ProximityQuery(rows, dist, client, radius) ==>
      x.distanciaMetros <= radius as real && x.capacidadeDisponivel == 24 && x.status == "ATIVA"
  {
    var c := Candidates(rows, dist, client, radius);
    var sorted := SortBy(c, DistanceOf);
    TakeSortedIsLeast(sorted, DistanceOf, ProximityLimit);
    forall x | x in ProximityQuery(rows, dist, client, radius) ensures x in c {
      assert x in multiset(ProximityQuery(rows, dist, client, radius));
    }
  }

  /** A proximity row annotated with its viability label (`{...row, viabilidade}`). */
  datatype Classified = Classified(row: ProximityRow, viabilidade: string)

  /** `rows.map(row => ({...row, viabilidade: classificarViabilidade(distance, capacity)}))`. */
  function Annotate(rows: seq<ProximityRow>): (out: seq<Classified>)
    ensures |out| == |rows|
    ensures forall i :: 0 <= i < |rows| ==> out[i].row == rows[i]
    ensures forall i :: 0 <= i < |rows| ==>
      out[i].viabilidade == ClassificarViabilidade(rows[i].distanciaMetros, rows[i].capacidadeDisponivel)
  {
    seq(|rows|, i requires 0 <= i < |rows| =>
      Classified(rows[i], ClassificarViabilidade(rows[i].distanciaMetros, rows[i].capacidadeDisponivel)))
  }

  /** checkCTOsProximity: the annotated query result, or the store's error rethrown with a prefix. */
  function CheckCTOsProximity(store: Store, dist: (Point, Point) -> real, latitude: real, longitude: real, radius: int): (r: Result<seq<Classified>, string>)
    ensures r.Failure? <==> store.Unreachable?
    ensures store.Unreachable? ==> r.error == ProximityFailurePrefix + store.message
    ensures r.Success? ==> |r.value| <= ProximityLimit
  {
    match store
    case Unreachable(m) => Failure(ProximityFailurePrefix + m)
    case Available(rows) => Success(Annotate(ProximityQuery(rows, dist, Point(longitude, latitude), radius)))
  }

  /**
   * What the endpoint receives from a reachable store: at most 20 rows, in
   * ascending distance, each within the radius; and since capacity is the
   * placeholder 24, no row is ever labelled "sem capacidade".
   */
  lemma ProximityResults(rows: seq<ViewRow>, dist: (Point, Point) -> real, latitude: real, longitude: real, radius: int)
    ensures var out := CheckCTOsProximity(Available(rows), dist, latitude, longitude, radius).value;
      |out| <= 20 &&
      (forall i, j :: 0 <= i < j < |out| ==> out[i].row.distanciaMetros <= out[j].row.distanciaMetros) &&
      (forall i :: 0 <= i < |out| ==> out[i].row.distanciaMetros <= radius as real) &&
      (forall i :: 0 <= i < |out| ==> out[i].viabilidade != TierLabel(MediaSemCapacidade)) &&
      (forall i :: 0 <= i < |out| ==>
        (out[i].viabilidade == TierLabel(Alta) <==> out[i].row.distanciaMetros <= 300.0))
  {
    var q := ProximityQuery(rows, dist, Point(longitude, latitude), radius);
    var out := Annotate(q);
    ProximityClosest(rows, dist, Point(longitude, latitude), radius);
    forall i | 0 <= i < |out|
      ensures out[i].row.distanciaMetros <= radius as real
      ensures out[i].viabilidade != TierLabel(MediaSemCapacidade)
      ensures out[i].viabilidade == TierLabel(Alta) <==> out[i].row.distanciaMetros <= 300.0
    {
      assert q[i] in q;
      PlaceholderCapacityLabel(q[i].distanciaMetros);
    }
  }

  /** With the placeholder capacity 24 the label is never "sem capacidade", and ALTA exactly within 300 m. */
  lemma PlaceholderCapacityLabel(d: real)
    ensures ClassificarViabilidade(d, 24) != TierLabel(MediaSemCapacidade)
    ensures ClassificarViabilidade(d, 24) == TierLabel(Alta) <==> d <= 300.0
  {
    TierLabelInjective(Classify(d, 24), MediaSemCapacidade);
    TierLabelInjective(Classify(d, 24), Alta);
  }

  /** The proximity query returns some row exactly when some view row lies within the radius. */
  lemma ProximityNonEmpty(rows: seq<ViewRow>, dist: (Point, Point) -> real, client: Point, radius: int)
    ensures ProximityQuery(rows, dist, client, radius) != [] <==>
      exists r :: r in rows && WithinRadius(dist, client, radius, r)
  {
    var c := Candidates(rows, dist, client, radius);
    if exists r :: r in rows && WithinRadius(dist, client, radius, r) {
      var r :| r in rows && WithinRadius(dist, client, radius, r);
      CandidatesFrom(rows, dist, client, radius, ProximityRowOf(r, dist(client, Location(r))));
    }
    if c != [] {
      CandidatesFrom(rows, dist, client, radius, c[0]);
    }
  }

  // ---------------------------------------------------------------------------
  // getCTOMaisProxima, getCTOsPorArea
  // ---------------------------------------------------------------------------

  const AreaLimit := 100

  /** A row of the nearest-node and area queries. */
  datatype CtoRow = CtoRow(ctoId: string, nome: string, endereco: string, longitude: real, latitude: real, tipoGeometria: string)

  function CtoRowOf(r: ViewRow): CtoRow
    requires HasLocation(r)
  {
    CtoRow(r.nome, r.nome, r.descricao, Location(r).longitude, Location(r).latitude, r.geometryType)
  }

  /** The projections of rows that all carry coordinates, in order. */
  function CtoRows(rows: seq<ViewRow>): (out: seq<CtoRow>)
    requires forall r :: r in rows ==> HasLocation(r)
    ensures |out| == |rows|
    ensures forall i :: 0 <= i < |rows| ==> out[i] == CtoRowOf(rows[i])
  {
    seq(|rows|, i requires 0 <= i < |rows| => CtoRowOf(rows[i]))
  }

  predicate NotNull(r: ViewRow)
  {
    r.coordinates.Some?
  }

  /** The rows with coordinates, ordered by distance from the client (ORDER BY ST_DISTANCE). */
  function NearestOrder(rows: seq<ViewRow>, dist: (Point, Point) -> real, client: Point): (order: seq<ViewRow>)
    ensures multiset(order) == multiset(Filter(rows, NotNull))
    ensures SortedBy(order, r => RowDistance(dist, client, r))
  {
    SortBy(Filter(rows, NotNull), r => RowDistance(dist, client, r))
  }

  /** getCTOMaisProxima: the first row in distance order among rows with coordinates, or null. */
  function GetCTOMaisProxima(store: Store, dist: (Point, Point) -> real, latitude: real, longitude: real): (r: Result<Option<CtoRow>, QueryError>)
    ensures r.Failure? <==> store.Unreachable? || exists row :: row in store.rows && ShortCoordinates(row)
    ensures store.Unreachable? ==> r == Failure(StoreError(store.message))
    ensures store.Available? && r.Success? && r.value.Some? ==>
      exists row :: row in store.rows && HasLocation(row) && r.value.value == CtoRowOf(row)
  {
    match store
    case Unreachable(m) => Failure(StoreError(m))
    case Available(rows) =>
      if exists r :: r in rows && ShortCoordinates(r) then Failure(OffsetOutOfRange)
      else
        var order := NearestOrder(rows, dist, Point(longitude, latitude));
        if order == [] then Success(None)
        else
          assert order[0] in multiset(order);
          FilterElement(rows, NotNull, order[0]);
          Success(Some(CtoRowOf(order[0])))
  }

  /** The head of the distance order has coordinates and no row with coordinates is closer. */
  lemma NearestOrderHead(rows: seq<ViewRow>, dist: (Point, Point) -> real, client: Point, r': ViewRow)
    requires forall r :: r in rows ==> !ShortCoordinates(r)
    requires r' in rows && HasLocation(r')
    ensures NearestOrder(rows, dist, client) != []
    ensures HasLocation(NearestOrder(rows, dist, client)[0])
    ensures dist(client, Location(NearestOrder(rows, dist, client)[0])) <= dist(client, Location(r'))
  {
    var key := r => RowDistance(dist, client, r);
    var order := NearestOrder(rows, dist, client);
    assert r' in Filter(rows, NotNull);
    assert r' in multiset(order);
    assert order[0] in multiset(order);
    FilterElement(rows, NotNull, order[0]);
    SortedHeadIsLeast(order, key, r');
  }

  /** The distance order is empty exactly when no row has coordinates. */
  lemma NearestOrderEmpty(rows: seq<ViewRow>, dist: (Point, Point) -> real, client: Point)
    ensures NearestOrder(rows, dist, client) == [] <==> forall r :: r in rows ==> r.coordinates.None?
  {
    var order := NearestOrder(rows, dist, client);
    if order != [] {
      assert order[0] in multiset(order);
      FilterElement(rows, NotNull, order[0]);
    }
    forall r | r in rows && r.coordinates.Some? ensures order != [] {
      assert r in Filter(rows, NotNull);
      assert r in multiset(order);
    }
  }

  /**
   * From a reachable store with no malformed coordinates, the nearest query
   * returns null exactly when no row has coordinates, and otherwise the
   * projection of a row with coordinates that no other such row is closer than.
   */
  lemma NearestIsClosest(rows: seq<ViewRow>, dist: (Point, Point) -> real, latitude: real, longitude: real)
    requires forall r :: r in rows ==> !ShortCoordinates(r)
    ensures GetCTOMaisProxima(Available(rows), dist, latitude, longitude).Success?
    ensures GetCTOMaisProxima(Available(rows), dist, latitude, longitude).value.None? <==>
      forall r :: r in rows ==> r.coordinates.None?
    ensures GetCTOMaisProxima(Available(rows), dist, latitude, longitude).value.Some? ==>
      exists r :: r in rows && HasLocation(r) &&
        GetCTOMaisProxima(Available(rows), dist, latitude, longitude).value.value == CtoRowOf(r) &&
        forall r' :: r' in rows && HasLocation(r') ==>
          dist(Point(longitude, latitude), Location(r)) <= dist(Point(longitude, latitude), Location(r'))
  {
    var client := Point(longitude, latitude);
    var order := NearestOrder(rows, dist, client);
    NearestOrderEmpty(rows, dist, client);
    if order != [] {
      var r := order[0];
      assert r in multiset(order);
      FilterElement(rows, NotNull, r);
      forall r' | r' in rows && HasLocation(r')
        ensures dist(client, Location(r)) <= dist(client, Location(r'))
      {
        NearestOrderHead(rows, dist, client, r');
      }
    }
  }

  /** An empty view: the nearest query returns null. */
  lemma NearestOfEmpty(dist: (Point, Point) -> real, latitude: real, longitude: real)
    ensures GetCTOMaisProxima(Available([]), dist, latitude, longitude) == Success(None)
  {
  }

  /** A map box as the area query receives it. */
  datatype Bounds = Bounds(north: real, south: real, east: real, west: real)

  /** `latitude BETWEEN south AND north AND longitude BETWEEN west AND east`, bounds included. */
  predicate InBox(b: Bounds, r: ViewRow)
  {
    HasLocation(r) &&
    b.south <= Location(r).latitude <= b.north && b.west <= Location(r).longitude <= b.east
  }

  /**
   * getCTOsPorArea: the first 100 rows in the box, in store order. The query
   * has LIMIT but no ORDER BY, so this is one of the outcomes BigQuery permits.
   */
  function GetCTOsPorArea(store: Store, b: Bounds): (r: Result<seq<CtoRow>, QueryError>)
    ensures r.Failure? <==> store.Unreachable? || exists row :: row in store.rows && ShortCoordinates(row)
    ensures store.Unreachable? ==> r == Failure(StoreError(store.message))
    ensures r.Success? ==> |r.value| <= AreaLimit
  {
    match store
    case Unreachable(m) => Failure(StoreError(m))
    case Available(rows) =>
      if exists r :: r in rows && ShortCoordinates(r) then Failure(OffsetOutOfRange)
      else
        var inBox := Filter(rows, r => InBox(b, r));
        var t := Take(inBox, AreaLimit);
        assert forall r :: r in t ==> HasLocation(r) by {
          forall r | r in t ensures HasLocation(r) {
            TakeElement(inBox, AreaLimit, r);
            FilterElement(rows, r => InBox(b, r), r);
          }
        }
        Success(CtoRows(t))
  }

  /**
   * The area query returns min(100, in-box rows) rows, each the projection of
   * a view row whose point lies in the box; when at most 100 lie in it, every
   * one of them is returned.
   */
  lemma AreaWithinBox(rows: seq<ViewRow>, b: Bounds)
    requires forall r :: r in rows ==> !ShortCoordinates(r)
    ensures GetCTOsPorArea(Available(rows), b).Success?
    ensures |GetCTOsPorArea(Available(rows), b).value| <= AreaLimit
    ensures forall c :: c in GetCTOsPorArea(Available(rows), b).value ==>
      b.south <= c.latitude <= b.north && b.west <= c.longitude <= b.east &&
      exists r :: r in rows && InBox(b, r) && c == CtoRowOf(r)
    ensures |GetCTOsPorArea(Available(rows), b).value| ==
      if |Filter(rows, r => InBox(b, r))| <= AreaLimit then |Filter(rows, r => InBox(b, r))| else AreaLimit
    ensures |Filter(rows, r => InBox(b, r))| <= AreaLimit ==>
      forall r :: r in rows && InBox(b, r) ==> CtoRowOf(r) in GetCTOsPorArea(Available(rows), b).value
  {
    var inBox := Filter(rows, r => InBox(b, r));
    var t := Take(inBox, AreaLimit);
    var out := GetCTOsPorArea(Available(rows), b).value;
    if |inBox| <= AreaLimit {
      forall r | r in rows && InBox(b, r) ensures CtoRowOf(r) in out {
        assert r in inBox;
        var i :| 0 <= i < |t| && t[i] == r;
        assert out[i] == CtoRowOf(r);
      }
    }
    forall c | c in out
      ensures b.south <= c.latitude <= b.north && b.west <= c.longitude <= b.east
      ensures exists r :: r in rows && InBox(b, r) && c == CtoRowOf(r)
    {
      var i :| 0 <= i < |out| && out[i] == c;
      assert t[i] in t;
      TakeElement(inBox, AreaLimit, t[i]);
      FilterElement(rows, r => InBox(b, r), t[i]);
      assert c == CtoRowOf(t[i]);
    }
  }

  /** A prefix of a sequence is a sub-multiset of it. */
  lemma PrefixSubMultiset<T>(a: seq<T>, n: nat)
    requires n <= |a|
    ensures multiset(a[..n]) <= multiset(a)
  {
    assert a == a[..n] + a[n..];
  }

  /**
   * The area query returns no row more often than it occurs among the in-box
   * rows, whichever of them the LIMIT keeps.
   */
  lemma AreaDrawsFromBox(rows: seq<ViewRow>, b: Bounds)
    requires forall r :: r in rows ==> !ShortCoordinates(r)
    ensures multiset(GetCTOsPorArea(Available(rows), b).value) <= multiset(CtoRows(Filter(rows, r => InBox(b, r))))
  {
    var inBox := Filter(rows, r => InBox(b, r));
    var all := CtoRows(inBox);
    var out := GetCTOsPorArea(Available(rows), b).value;
    assert out == all[..|out|];
    PrefixSubMultiset(all, |out|);
  }

  // ---------------------------------------------------------------------------
  // buscarCTOsPorTexto
  // ---------------------------------------------------------------------------

  const TextLimit := 20

  /** A row of the text search's result set. */
  datatype SearchRow = SearchRow(ctoId: string, nome: string, endereco: string, longitude: real, latitude: real)

  function SearchRowOf(r: ViewRow): SearchRow
    requires HasLocation(r)
  {
    SearchRow(r.nome, r.nome, r.descricao, Location(r).longitude, Location(r).latitude)
  }

  /** The projections of rows that all carry coordinates, in order. */
  function SearchRows(rows: seq<ViewRow>): (out: seq<SearchRow>)
    requires forall r :: r in rows ==> HasLocation(r)
    ensures |out| == |rows|
    ensures forall i :: 0 <= i < |rows| ==> out[i] == SearchRowOf(rows[i])
  {
    seq(|rows|, i requires 0 <= i < |rows| => SearchRowOf(rows[i]))
  }

  /** The bound parameter: the term wrapped as `%term%`, the term itself not escaped. */
  function SearchPattern(texto: string): string
  {
    "%" + texto + "%"
  }

  /** `(LOWER(nome) LIKE LOWER(@texto) OR LOWER(descricao) LIKE LOWER(@texto)) AND coordinates IS NOT NULL`. */
  predicate TextHit(pattern: string, r: ViewRow): (h: bool)
    ensures h ==> r.coordinates.Some?
  {
    (Text.Like(Text.Lower(r.nome), Text.Lower(pattern)) || Text.Like(Text.Lower(r.descricao), Text.Lower(pattern))) &&
    r.coordinates.Some?
  }

  /**
   * buscarCTOsPorTexto: the first 20 matching rows in store order. The query
   * has LIMIT but no ORDER BY, so this is one of the outcomes BigQuery permits.
   */
  function BuscarCTOsPorTexto(store: Store, texto: string): (r: Result<seq<SearchRow>, QueryError>)
    ensures r.Failure? <==>
      (store.Unreachable? || exists row :: row in store.rows && TextHit(SearchPattern(texto), row) && ShortCoordinates(row))
    ensures store.Unreachable? ==> r == Failure(StoreError(store.message))
    ensures r.Success? ==> |r.value| <= TextLimit
  {
    match store
    case Unreachable(m) => Failure(StoreError(m))
    case Available(rows) =>
      var hits := Filter(rows, r => TextHit(SearchPattern(texto), r));
      if exists r :: r in hits && ShortCoordinates(r) then Failure(OffsetOutOfRange)
      else
        var t := Take(hits, TextLimit);
        assert forall r :: r in t ==> HasLocation(r) by {
          forall r | r in t ensures HasLocation(r) {
            TakeElement(hits, TextLimit, r);
            FilterElement(rows, r => TextHit(SearchPattern(texto), r), r);
          }
        }
        Success(SearchRows(t))
  }

  /** Lowering the wrapped pattern is wrapping the lowered term. */
  lemma LowerPattern(texto: string)
    ensures Text.Lower(SearchPattern(texto)) == "%" + Text.Lower(texto) + "%"
  {
    Text.LowerConcat("%" + texto, "%");
    Text.LowerConcat("%", texto);
    Text.LowerPercent();
  }

  /** For a term without `%` or `_`, the text condition is a case-insensitive substring match. */
  lemma TextHitIsSubstring(texto: string, r: ViewRow)
    requires Text.NoWildcards(texto)
    ensures TextHit(SearchPattern(texto), r) <==>
      (Text.Contains(Text.Lower(r.nome), Text.Lower(texto)) || Text.Contains(Text.Lower(r.descricao), Text.Lower(texto))) &&
      r.coordinates.Some?
  {
    LowerPattern(texto);
    Text.LowerNoWildcards(texto);
    Text.LikeSubstring(Text.Lower(r.nome), Text.Lower(texto));
    Text.LikeSubstring(Text.Lower(r.descricao), Text.Lower(texto));
  }

  /** A row with a coordinate pair whose lowered name or description contains the lowered term. */
  predicate MatchesTerm(texto: string, r: ViewRow)
  {
    HasLocation(r) &&
    (Text.Contains(Text.Lower(r.nome), Text.Lower(texto)) || Text.Contains(Text.Lower(r.descricao), Text.Lower(texto)))
  }

  /**
   * The text search returns min(20, matching rows) rows, each the projection
   * of a view row with coordinates whose lowered name or description contains
   * the lowered term; when at most 20 rows match, every one of them is returned.
   */
  lemma TextSearchMatches(rows: seq<ViewRow>, texto: string)
    requires Text.NoWildcards(texto)
    requires BuscarCTOsPorTexto(Available(rows), texto).Success?
    ensures |BuscarCTOsPorTexto(Available(rows), texto).value| ==
      if |Filter(rows, r => TextHit(SearchPattern(texto), r))| <= TextLimit
      then |Filter(rows, r => TextHit(SearchPattern(texto), r))| else TextLimit
    ensures forall s :: s in BuscarCTOsPorTexto(Available(rows), texto).value ==>
      exists r :: r in rows && MatchesTerm(texto, r) && s == SearchRowOf(r)
    ensures |Filter(rows, r => TextHit(SearchPattern(texto), r))| <= TextLimit ==>
      forall r :: r in rows && MatchesTerm(texto, r) ==> SearchRowOf(r) in BuscarCTOsPorTexto(Available(rows), texto).value
  {
    var hits := Filter(rows, r => TextHit(SearchPattern(texto), r));
    var t := Take(hits, TextLimit);
    var out := BuscarCTOsPorTexto(Available(rows), texto).value;
    forall s | s in out
      ensures exists r :: r in rows && MatchesTerm(texto, r) && s == SearchRowOf(r)
    {
      var i :| 0 <= i < |out| && out[i] == s;
      var r := t[i];
      assert r in hits;
      TextHitIsSubstring(texto, r);
    }
    if |hits| <= TextLimit {
      forall r | r in rows && MatchesTerm(texto, r) ensures SearchRowOf(r) in out {
        TextHitIsSubstring(texto, r);
        assert r in hits;
        var i :| 0 <= i < |t| && t[i] == r;
        assert out[i] == SearchRowOf(r);
      }
    }
  }

  /**
   * The text search returns no row more often than it occurs among the
   * matching rows, whichever of them the LIMIT keeps.
   */
  lemma TextSearchDrawsFromHits(rows: seq<ViewRow>, texto: string)
    requires BuscarCTOsPorTexto(Available(rows), texto).Success?
    ensures forall r :: r in Filter(rows, r => TextHit(SearchPattern(texto), r)) ==> HasLocation(r)
    ensures multiset(BuscarCTOsPorTexto(Available(rows), texto).value) <=
      multiset(SearchRows(Filter(rows, r => TextHit(SearchPattern(texto), r))))
  {
    var hits := Filter(rows, r => TextHit(SearchPattern(texto), r));
    assert forall r :: r in hits ==> HasLocation(r);
    var all := SearchRows(hits);
    var out := BuscarCTOsPorTexto(Available(rows), texto).value;
    assert out == all[..|out|];
    PrefixSubMultiset(all, |out|);
  }

  // ---------------------------------------------------------------------------
  // getEstatisticasCTOs
  // ---------------------------------------------------------------------------

  /** The statistics row; the percentage is SQL NULL (None) on an empty view. */
  datatype Estatisticas = Estatisticas(totalCtos: nat, ctoUnicas: nat, percentualComCoordenadas: Option<real>)

  /** The rows carrying a usable coordinate pair, counted. */
  function CountWithLocation(rows: seq<ViewRow>): (n: nat)
    ensures n <= |rows|
  {
    if rows == [] then 0
    else (if HasLocation(rows[0]) then 1 else 0) + CountWithLocation(rows[1..])
  }

  /** The distinct names. */
  function Names(rows: seq<ViewRow>): set<string>
  {
    set r | r in rows :: r.nome
  }

  /** getEstatisticasCTOs: COUNT(*), COUNT(DISTINCT nome) and AVG(has coordinates) * 100. */
  function GetEstatisticasCTOs(store: Store): (r: Result<Estatisticas, QueryError>)
    ensures r.Failure? <==> store.Unreachable?
    ensures store.Unreachable? ==> r == Failure(StoreError(store.message))
    ensures store.Available? ==>
      r.value.totalCtos == |store.rows| && r.value.ctoUnicas <= r.value.totalCtos &&
      (r.value.percentualComCoordenadas.None? <==> store.rows == [])
  {
    match store
    case Unreachable(m) => Failure(StoreError(m))
    case Available(rows) =>
      NamesBound(rows);
      Success(Estatisticas(|rows|, |Names(rows)|, PercentWithLocation(rows)))
  }

  /** AVG(1 for a row with coordinates, else 0) * 100; NULL when there are no rows. */
  function PercentWithLocation(rows: seq<ViewRow>): (p: Option<real>)
    ensures p.None? <==> rows == []
    ensures p.Some? ==> 0.0 <= p.value <= 100.0
  {
    if rows == [] then None
    else
      PercentFacts(CountWithLocation(rows) as real, |rows| as real);
      Some(100.0 * (CountWithLocation(rows) as real) / (|rows| as real))
  }

  /** There are never more distinct names than rows, and at least one when there is a row. */
  lemma {:induction false} NamesBound(rows: seq<ViewRow>)
    ensures |Names(rows)| <= |rows|
    ensures rows != [] ==> |Names(rows)| >= 1
  {
    if rows != [] {
      NamesBound(rows[1..]);
      assert Names(rows) == {rows[0].nome} + Names(rows[1..]) by {
        assert forall r :: r in rows <==> r == rows[0] || r in rows[1..];
      }
      assert rows[0].nome in Names(rows);
    }
  }

  /**
   * The statistics of a reachable store: the row count, no more distinct names
   * than rows, and a percentage that is NULL exactly when the view is empty.
   */
  lemma StatisticsOfStore(rows: seq<ViewRow>)
    ensures GetEstatisticasCTOs(Available(rows)) ==
      Success(Estatisticas(|rows|, |Names(rows)|, PercentWithLocation(rows)))
    ensures |Names(rows)| <= |rows|
    ensures PercentWithLocation(rows).None? <==> rows == []
  {
    NamesBound(rows);
  }

  /**
   * The percentage is 100 * located / total: between 0 and 100, and 100
   * exactly when every row has coordinates.
   */
  lemma PercentBounds(rows: seq<ViewRow>)
    requires rows != []
    ensures 0.0 <= PercentWithLocation(rows).value <= 100.0
    ensures PercentWithLocation(rows).value == 100.0 <==> CountWithLocation(rows) == |rows|
  {
    PercentFacts(CountWithLocation(rows) as real, |rows| as real);
  }

  /** 100 * k / n for 0 <= k <= n lies in [0, 100] and is 100 exactly when k == n. */
  lemma PercentFacts(k: real, n: real)
    requires 0.0 <= k <= n && n > 0.0
    ensures 0.0 <= 100.0 * k / n <= 100.0
    ensures (100.0 * k / n) * n == 100.0 * k
    ensures 100.0 * k / n == 100.0 <==> k == n
  {
    var p := 100.0 * k / n;
    assert p * n == 100.0 * k;
    assert (100.0 - p) * n == 100.0 * (n - k);
  }

  /** A fixed fixture: four rows, two names, three with coordinates. */
  function Fixture(): seq<ViewRow>
  {
    [ViewRow("CTO-1", "Rua A", "Point", Some([-46.63, -23.55])),
     ViewRow("CTO-1", "Rua B", "Point", Some([-46.64, -23.56])),
     ViewRow("CTO-2", "Rua C", "Point", None),
     ViewRow("CTO-2", "Rua D", "Point", Some([-46.65, -23.57]))]
  }

  /** The fixture's statistics are 4 rows, 2 names and exactly 75 % with coordinates. */
  lemma StatisticsFixture()
    ensures GetEstatisticasCTOs(Available(Fixture())) == Success(Estatisticas(4, 2, Some(75.0)))
  {
    var rows := Fixture();
    assert Names(rows) == {"CTO-1", "CTO-2"} by {
      assert forall r :: r in rows <==> r == rows[0] || r == rows[1] || r == rows[2] || r == rows[3];
    }
    assert |{"CTO-1", "CTO-2"}| == 2 by {
      assert "CTO-1" != "CTO-2" by {
        assert "CTO-1"[4] == '1' && "CTO-2"[4] == '2';
      }
    }
    assert CountWithLocation(rows) == 3 by {
      assert rows[1..] == [rows[1], rows[2], rows[3]];
      assert rows[1..][1..] == [rows[2], rows[3]];
      assert rows[1..][1..][1..] == [rows[3]];
      assert rows[1..][1..][1..][1..] == [];
    }
    assert PercentWithLocation(rows) == Some(75.0);
  }
}
