/** One geo bucket: a spatial index with a tier per precision, beside the point map. */
module GeoStore {
  import opened Common
  import opened GeoGrid
  import opened GeoCover

  type UserId = string

  datatype Entry = Entry(userId: UserId, lat: Coord, lng: Coord, geohash: Cell, expiresAt: Option<int>)

  type Tier = map<Cell, set<UserId>>
  type Index = map<Precision, Tier>
  type Points = map<UserId, Entry>

  datatype State = State(index: Index, points: Points)

  datatype GeoError = NoGeoBucket | NoLruBucket | NotFound | BadPrecision

  // ----- one tier

  function Members(tier: Tier, cell: Cell): set<UserId> {
    if cell in tier then tier[cell] else {}
  }

  /** Take a user out of a cell; a cell left empty is dropped. */
  function RemoveFrom(tier: Tier, cell: Cell, u: UserId): Tier {
    if cell in tier then
      var ids := tier[cell] - {u};
      if ids == {} then tier - {cell} else tier[cell := ids]
    else tier
  }

  function InsertInto(tier: Tier, cell: Cell, u: UserId): Tier {
    tier[cell := Members(tier, cell) + {u}]
  }

  // ----- every tier, in the order of the precisions

  predicate HasTiers(index: Index, ps: seq<Precision>) {
    forall p | p in ps :: p in index
  }

  function RemoveTiers(index: Index, ps: seq<Precision>, u: UserId, lat: Coord, lng: Coord): (r: Index)
    requires HasTiers(index, ps)
    ensures r.Keys == index.Keys
  {
    if ps == [] then index
    else
      var n := |ps| - 1;
      assert forall p | p in ps[..n] :: p in ps;
      var r := RemoveTiers(index, ps[..n], u, lat, lng);
      r[ps[n] := RemoveFrom(r[ps[n]], Encode(lat, lng, ps[n]), u)]
  }

  function InsertTiers(index: Index, ps: seq<Precision>, u: UserId, lat: Coord, lng: Coord): (r: Index)
    requires HasTiers(index, ps)
    ensures r.Keys == index.Keys
  {
    if ps == [] then index
    else
      var n := |ps| - 1;
      assert forall p | p in ps[..n] :: p in ps;
      var r := InsertTiers(index, ps[..n], u, lat, lng);
      r[ps[n] := InsertInto(r[ps[n]], Encode(lat, lng, ps[n]), u)]
  }

  // ----- the operations as functions on the state

  predicate Ascending(ps: seq<Precision>) {
    forall i, j | 0 <= i < j < |ps| :: ps[i] <= ps[j]
  }

  function MaxPrecision(ps: seq<Precision>): Precision
    requires |ps| > 0
  {
    ps[|ps| - 1]
  }

  function MakeEntry(ps: seq<Precision>, u: UserId, lat: Coord, lng: Coord, expiresAt: Option<int>): Entry
    requires |ps| > 0
  {
    Entry(u, lat, lng, Encode(lat, lng, MaxPrecision(ps)), expiresAt)
  }

  /** The state an insertion starts from: without the user, unless the user stays in the
      finest cell. */
  function Cleared(st: State, ps: seq<Precision>, e: Entry): (r: State)
    requires HasTiers(st.index, ps)
    ensures HasTiers(r.index, ps)
  {
    if e.userId in st.points && st.points[e.userId].geohash != e.geohash then DeleteStep(st, ps, e.userId) else st
  }

  function PutStep(st: State, ps: seq<Precision>, e: Entry): State
    requires HasTiers(st.index, ps)
  {
    State(InsertTiers(Cleared(st, ps, e).index, ps, e.userId, e.lat, e.lng), st.points[e.userId := e])
  }

  function DeleteStep(st: State, ps: seq<Precision>, u: UserId): State
    requires HasTiers(st.index, ps)
  {
    if u in st.points then
      State(RemoveTiers(st.index, ps, u, st.points[u].lat, st.points[u].lng), st.points - {u})
    else st
  }

  /** The deadline of an entry: a zero ttl takes the default of the LRU bucket, and only a
      positive ttl sets a deadline. `lru` is that default, or None when no LRU bucket exists. */
  function Deadline(ttl: int, lru: Option<int>, now: int): Option<int> {
    var effective := if ttl == 0 && lru.Some? then lru.value else ttl;
    if effective > 0 then Some(now + effective) else None
  }

  /** The ttl that a peer applies to a replicated set, from the deadline it carries; None when
      the entry expired on the way and is dropped. The peer reads its clock once more when it
      stores the entry: whatever its own default ttl, an entry that has a deadline gets that
      deadline, later by just the time between the two readings. */
  function ReceivedTtl(deadline: Option<int>, now: int): (ttl: Option<int>)
    ensures ttl == None <==> deadline.Some? && deadline.value <= now
    ensures deadline.Some? && ttl.Some? ==>
              forall lru, stored :: Deadline(ttl.value, lru, stored) == Some(deadline.value + (stored - now))
    ensures deadline == None ==> ttl == Some(0)
  {
    match deadline
    case None => Some(0)
    case Some(d) => if d - now <= 0 then None else Some(d - now)
  }

  datatype GeoOp =
    | SetLoc(u: UserId, lat: Coord, lng: Coord, ttl: int, lru: Option<int>, now: int)
    | DeleteLoc(u: UserId)

  /** Setting a location writes the index first and the LRU bucket second; when the second
      write fails the first is rolled back by a delete. */
  function Step(st: State, ps: seq<Precision>, op: GeoOp): State
    requires |ps| > 0 && HasTiers(st.index, ps)
  {
    match op
    case SetLoc(u, lat, lng, ttl, lru, now) =>
      var put := PutStep(st, ps, MakeEntry(ps, u, lat, lng, Deadline(ttl, lru, now)));
      if lru.Some? then put else DeleteStep(put, ps, u)
    case DeleteLoc(u) => DeleteStep(st, ps, u)
  }

  /** What an operation means for the points alone. */
  function PointsStep(points: Points, ps: seq<Precision>, op: GeoOp): Points
    requires |ps| > 0
  {
    match op
    case SetLoc(u, lat, lng, ttl, lru, now) =>
      if lru.Some? then points[u := MakeEntry(ps, u, lat, lng, Deadline(ttl, lru, now))] else points - {u}
    case DeleteLoc(u) => points - {u}
  }

  /** What a set leaves of the points: the others as they were, and the user at the new position
      with the deadline of the ttl, or else of the default, or else none. */
  lemma SetPoints(points: Points, ps: seq<Precision>, u: UserId, lat: Coord, lng: Coord, ttl: int, lru: Option<int>, now: int)
    requires |ps| > 0
    ensures var points' := PointsStep(points, ps, SetLoc(u, lat, lng, ttl, lru, now));
            points' - {u} == points - {u} && (u in points' <==> lru.Some?) &&
            (lru.Some? ==>
               points'[u].userId == u && points'[u].lat == lat && points'[u].lng == lng &&
               points'[u].expiresAt == (if ttl > 0 then Some(now + ttl)
                                        else if ttl == 0 && lru.value > 0 then Some(now + lru.value)
                                        else None))
  {
  }

  // ----- the index invariant

  /** Where each user's point lies at one precision. */
  function Positions(points: Points, p: Precision): map<UserId, Cell> {
    map u | u in points :: Encode(points[u].lat, points[u].lng, p)
  }

  /** A tier holds a user in a cell exactly when the user's position is that cell, and it
      holds no empty cell. */
  ghost predicate TierExact(tier: Tier, at: map<UserId, Cell>) {
    (forall c | c in tier :: tier[c] != {}) &&
    (forall c, u :: u in Members(tier, c) <==> u in at && at[u] == c)
  }

  ghost predicate PointsWellFormed(points: Points, ps: seq<Precision>)
    requires |ps| > 0
  {
    forall u | u in points ::
      points[u].userId == u && points[u].geohash == Encode(points[u].lat, points[u].lng, MaxPrecision(ps))
  }

  ghost predicate Consistent(st: State, ps: seq<Precision>) {
    |ps| > 0 && Ascending(ps) &&
    st.index.Keys == Elements(ps) &&
    PointsWellFormed(st.points, ps) &&
    forall p | p in ps :: TierExact(st.index[p], Positions(st.points, p))
  }

  lemma RemoveTwice(tier: Tier, cell: Cell, u: UserId)
    ensures RemoveFrom(RemoveFrom(tier, cell, u), cell, u) == RemoveFrom(tier, cell, u)
  {
    if cell in tier {
      assert tier[cell] - {u} - {u} == tier[cell] - {u};
    }
  }

  lemma InsertTwice(tier: Tier, cell: Cell, u: UserId)
    ensures InsertInto(InsertInto(tier, cell, u), cell, u) == InsertInto(tier, cell, u)
  {
  }

  /** Every tier outside ps is untouched; every tier of ps is changed once, however often its
      precision is listed. */
  lemma {:induction false} RemoveTiersAt(index: Index, ps: seq<Precision>, u: UserId, lat: Coord, lng: Coord, p: Precision)
    requires HasTiers(index, ps) && p in index
    ensures RemoveTiers(index, ps, u, lat, lng)[p] ==
            if p in ps then RemoveFrom(index[p], Encode(lat, lng, p), u) else index[p]
  {
    if ps != [] {
      var n := |ps| - 1;
      assert ps == ps[..n] + [ps[n]];
      RemoveTiersAt(index, ps[..n], u, lat, lng, p);
      RemoveTwice(index[p], Encode(lat, lng, p), u);
    }
  }

  lemma {:induction false} InsertTiersAt(index: Index, ps: seq<Precision>, u: UserId, lat: Coord, lng: Coord, p: Precision)
    requires HasTiers(index, ps) && p in index
    ensures InsertTiers(index, ps, u, lat, lng)[p] ==
            if p in ps then InsertInto(index[p], Encode(lat, lng, p), u) else index[p]
  {
    if ps != [] {
      var n := |ps| - 1;
      assert ps == ps[..n] + [ps[n]];
      InsertTiersAt(index, ps[..n], u, lat, lng, p);
      InsertTwice(index[p], Encode(lat, lng, p), u);
    }
  }

  lemma TierAfterDelete(tier: Tier, at: map<UserId, Cell>, u: UserId)
    requires TierExact(tier, at) && u in at
    ensures TierExact(RemoveFrom(tier, at[u], u), at - {u})
  {
    var r := RemoveFrom(tier, at[u], u);
    forall c ensures Members(r, c) == if c == at[u] then Members(tier, c) - {u} else Members(tier, c) {
    }
  }

  /** Inserting at the new cell is enough when the user is absent, or already in that cell. */
  lemma TierAfterInsert(tier: Tier, at: map<UserId, Cell>, u: UserId, cell: Cell)
    requires TierExact(tier, at)
    requires u in at ==> at[u] == cell
    ensures TierExact(InsertInto(tier, cell, u), at[u := cell])
  {
    var r := InsertInto(tier, cell, u);
    forall c ensures Members(r, c) == if c == cell then Members(tier, c) + {u} else Members(tier, c) {
    }
  }

  lemma PositionsAfterDelete(points: Points, u: UserId, p: Precision)
    ensures Positions(points - {u}, p) == Positions(points, p) - {u}
  {
  }

  lemma PositionsAfterPut(points: Points, e: Entry, p: Precision)
    ensures Positions(points[e.userId := e], p) == Positions(points, p)[e.userId := Encode(e.lat, e.lng, p)]
  {
  }

  lemma DeleteKeepsTier(st: State, ps: seq<Precision>, u: UserId, p: Precision)
    requires Consistent(st, ps) && p in ps && u in st.points
    ensures TierExact(DeleteStep(st, ps, u).index[p], Positions(st.points - {u}, p))
  {
    RemoveTiersAt(st.index, ps, u, st.points[u].lat, st.points[u].lng, p);
    TierAfterDelete(st.index[p], Positions(st.points, p), u);
    PositionsAfterDelete(st.points, u, p);
  }

  lemma DeleteKeepsConsistent(st: State, ps: seq<Precision>, u: UserId)
    requires Consistent(st, ps)
    ensures Consistent(DeleteStep(st, ps, u), ps)
    ensures DeleteStep(st, ps, u).points == st.points - {u}
  {
    if u in st.points {
      forall p | p in ps ensures TierExact(DeleteStep(st, ps, u).index[p], Positions(st.points - {u}, p)) {
        DeleteKeepsTier(st, ps, u, p);
      }
    } else {
      assert st.points - {u} == st.points;
    }
  }

  lemma InsertKeepsTier(st: State, ps: seq<Precision>, e: Entry, p: Precision)
    requires Consistent(st, ps) && p in ps
    requires e.userId in st.points ==> Positions(st.points, p)[e.userId] == Encode(e.lat, e.lng, p)
    ensures TierExact(InsertTiers(st.index, ps, e.userId, e.lat, e.lng)[p], Positions(st.points[e.userId := e], p))
  {
    InsertTiersAt(st.index, ps, e.userId, e.lat, e.lng, p);
    TierAfterInsert(st.index[p], Positions(st.points, p), e.userId, Encode(e.lat, e.lng, p));
    PositionsAfterPut(st.points, e, p);
  }

  lemma InsertKeepsConsistent(st: State, ps: seq<Precision>, e: Entry)
    requires Consistent(st, ps) && e.geohash == Encode(e.lat, e.lng, MaxPrecision(ps))
    requires forall p | p in ps && e.userId in st.points ::
               Positions(st.points, p)[e.userId] == Encode(e.lat, e.lng, p)
    ensures Consistent(State(InsertTiers(st.index, ps, e.userId, e.lat, e.lng), st.points[e.userId := e]), ps)
  {
    forall p | p in ps
      ensures TierExact(InsertTiers(st.index, ps, e.userId, e.lat, e.lng)[p], Positions(st.points[e.userId := e], p))
    {
      InsertKeepsTier(st, ps, e, p);
    }
    assert PointsWellFormed(st.points[e.userId := e], ps);
    assert InsertTiers(st.index, ps, e.userId, e.lat, e.lng).Keys == Elements(ps);
  }

  /** Putting an entry keeps the invariant, also in the branch that skips the removal: the
      finest cell is then unchanged, so by nesting every coarser cell is. */
  lemma PutKeepsConsistent(st: State, ps: seq<Precision>, e: Entry)
    requires Consistent(st, ps) && e.geohash == Encode(e.lat, e.lng, MaxPrecision(ps))
    ensures Consistent(PutStep(st, ps, e), ps)
  {
    var cleared := Cleared(st, ps, e);
    DeleteKeepsConsistent(st, ps, e.userId);
    forall p | p in ps && e.userId in cleared.points
      ensures Positions(cleared.points, p)[e.userId] == Encode(e.lat, e.lng, p)
    {
      UnmovedPosition(st, ps, e, p);
    }
    InsertKeepsConsistent(cleared, ps, e);
    ClearedThenPut(st, ps, e);
  }

  lemma ClearedThenPut(st: State, ps: seq<Precision>, e: Entry)
    requires HasTiers(st.index, ps)
    ensures Cleared(st, ps, e).points[e.userId := e] == st.points[e.userId := e]
  {
  }

  lemma UnmovedPosition(st: State, ps: seq<Precision>, e: Entry, p: Precision)
    requires Consistent(st, ps) && p in ps && e.userId in st.points
    requires st.points[e.userId].geohash == e.geohash == Encode(e.lat, e.lng, MaxPrecision(ps))
    ensures Positions(st.points, p)[e.userId] == Encode(e.lat, e.lng, p)
  {
    var i :| 0 <= i < |ps| && ps[i] == p;
    CellsNest(st.points[e.userId].lat, st.points[e.userId].lng, e.lat, e.lng, p, MaxPrecision(ps));
  }

  lemma StepKeepsConsistent(st: State, ps: seq<Precision>, op: GeoOp)
    requires Consistent(st, ps)
    ensures Consistent(Step(st, ps, op), ps)
    ensures Step(st, ps, op).points == PointsStep(st.points, ps, op)
  {
    match op
    case SetLoc(u, lat, lng, ttl, lru, now) =>
      var e := MakeEntry(ps, u, lat, lng, Deadline(ttl, lru, now));
      PutKeepsConsistent(st, ps, e);
      if lru.None? {
        DeleteKeepsConsistent(PutStep(st, ps, e), ps, u);
        PutThenDelete(st.points, u, e);
      }
    case DeleteLoc(u) =>
      DeleteKeepsConsistent(st, ps, u);
  }

  lemma PutThenDelete(points: Points, u: UserId, e: Entry)
    ensures points[u := e] - {u} == points - {u}
  {
  }

  // ----- whole runs

  function EmptyState(ps: seq<Precision>): State {
    State(map p | p in ps :: map[], map[])
  }

  function PointsAfter(points: Points, ps: seq<Precision>, ops: seq<GeoOp>): Points
    requires |ps| > 0
  {
    if ops == [] then points
    else PointsStep(PointsAfter(points, ps, ops[..|ops| - 1]), ps, ops[|ops| - 1])
  }

  ghost predicate IsRun(trace: seq<State>, ps: seq<Precision>, ops: seq<GeoOp>) {
    |ps| > 0 && |trace| == |ops| + 1 && trace[0] == EmptyState(ps) &&
    forall i | 0 <= i < |ops| :: HasTiers(trace[i].index, ps) && trace[i + 1] == Step(trace[i], ps, ops[i])
  }

  /** Along every run of sets and deletes the index stays exact, and the points are what a
      plain map driven by the same operations would hold. */
  lemma {:induction false} RunStaysConsistent(trace: seq<State>, ps: seq<Precision>, ops: seq<GeoOp>)
    requires Ascending(ps) && IsRun(trace, ps, ops)
    ensures Consistent(trace[|ops|], ps)
    ensures trace[|ops|].points == PointsAfter(map[], ps, ops)
  {
    if ops != [] {
      var n := |ops| - 1;
      RunStaysConsistent(trace[..|ops|], ps, ops[..n]);
      assert trace[..|ops|][n] == trace[n];
      StepKeepsConsistent(trace[n], ps, ops[n]);
    }
  }

  /** The index carries no history: consistent stores with the same points have the same
      index, whatever operations led there. */
  lemma IndexDeterminedByPoints(a: State, b: State, ps: seq<Precision>)
    requires Consistent(a, ps) && Consistent(b, ps) && a.points == b.points
    ensures a == b
  {
    forall p | p in ps ensures a.index[p] == b.index[p] {
      SameTier(a.index[p], b.index[p], Positions(a.points, p));
    }
  }

  lemma SameTier(s: Tier, t: Tier, at: map<UserId, Cell>)
    requires TierExact(s, at) && TierExact(t, at)
    ensures s == t
  {
    forall c ensures Members(s, c) == Members(t, c) {
      assert forall u :: u in Members(s, c) <==> u in at && at[u] == c;
      assert forall u :: u in Members(t, c) <==> u in at && at[u] == c;
    }
    forall c ensures c in s <==> Members(s, c) != {} {}
    forall c ensures c in t <==> Members(t, c) != {} {}
    assert s.Keys == t.Keys;
  }

  // ----- queries

  predicate Live(e: Entry, now: int) {
    !(e.expiresAt.Some? && e.expiresAt.value < now)
  }

  predicate Matches(e: Entry, box: Box, now: int) {
    Live(e, now) && Inside(e.lat, e.lng, box)
  }

  /** The reference answer of a query: a full scan of the points. */
  function Scan(points: Points, box: Box, now: int): set<Entry> {
    set u | u in points && Matches(points[u], box, now) :: points[u]
  }

  /** A result list has each entry of a set exactly once. */
  predicate ListsExactly<T(==)>(s: seq<T>, all: set<T>) {
    Distinct(s) && Elements(s) == all
  }

  function UsersIn(tier: Tier, cells: set<Cell>): set<UserId> {
    set c, u | c in cells && u in Members(tier, c) :: u
  }

  /** What a lookup in some cells gives: the users of these cells that pass the exact filter. */
  function Lookup(tier: Tier, points: Points, cells: set<Cell>, box: Box, now: int): set<Entry> {
    set u | u in UsersIn(tier, cells) && u in points && Matches(points[u], box, now) :: points[u]
  }

  /** Looking up the covering cells finds every user that a full scan would. */
  lemma CoveringFindsAll(st: State, ps: seq<Precision>, p: Precision, box: Box, now: int, u: UserId)
    requires Consistent(st, ps) && p in ps && u in st.points && Matches(st.points[u], box, now)
    ensures u in UsersIn(st.index[p], MeetingCells(p, box))
  {
    var e := st.points[u];
    var c := Encode(e.lat, e.lng, p);
    InsideMeets(e.lat, e.lng, p, box);
    EncodeInGrid(e.lat, e.lng, p);
    InGridCells(c);
    assert Positions(st.points, p)[u] == c;
    assert u in Members(st.index[p], c);
  }

  /** After any run, an indexed lookup and a full scan agree for every box and precision. */
  lemma RunLookupIsScan(trace: seq<State>, ps: seq<Precision>, ops: seq<GeoOp>, p: Precision, box: Box, now: int)
    requires Ascending(ps) && IsRun(trace, ps, ops) && p in ps
    ensures var st := trace[|ops|];
            p in st.index &&
            Lookup(st.index[p], st.points, MeetingCells(p, box), box, now) == Scan(PointsAfter(map[], ps, ops), box, now)
  {
    RunStaysConsistent(trace, ps, ops);
    var st := trace[|ops|];
    forall u | u in st.points && Matches(st.points[u], box, now)
      ensures u in UsersIn(st.index[p], MeetingCells(p, box))
    {
      CoveringFindsAll(st, ps, p, box, now, u);
    }
  }

  /** What a query lists, in plain terms: the point of each user that has not expired and lies
      between the four bounds, borders included. */
  lemma ScanIs(points: Points, box: Box, now: int)
    ensures forall e :: e in Scan(points, box, now) <==>
              e in points.Values && (e.expiresAt == None || now <= e.expiresAt.value) &&
              box.minLat <= e.lat <= box.maxLat && box.minLng <= e.lng <= box.maxLng
  {
  }

  lemma LookupIs(tier: Tier, points: Points, cells: set<Cell>, box: Box, now: int)
    ensures forall e :: e in Lookup(tier, points, cells, box, now) <==>
              (exists u :: u in UsersIn(tier, cells) && u in points && points[u] == e) &&
              (e.expiresAt == None || now <= e.expiresAt.value) &&
              box.minLat <= e.lat <= box.maxLat && box.minLng <= e.lng <= box.maxLng
  {
  }

  /** After any run, what the last operation on a user was decides whether a query lists them. A
      set that found its LRU bucket, at time t with ttl d: when the position is in the box and
      the deadline, if the ttl or else the default sets one, has not passed. A delete, and a set
      that was rolled back: never. A user of no operation: never. */
  lemma LastOperationDecides(trace: seq<State>, ps: seq<Precision>, ops: seq<GeoOp>, i: nat, p: Precision, box: Box, now: int)
    requires Ascending(ps) && IsRun(trace, ps, ops) && p in ps
    requires i < |ops| && forall j | i < j < |ops| :: ops[j].u != ops[i].u
    ensures p in trace[|ops|].index
    ensures var st, op := trace[|ops|], ops[i];
            (exists e :: e in Lookup(st.index[p], st.points, MeetingCells(p, box), box, now) && e.userId == op.u) <==>
            op.SetLoc? && op.lru.Some? &&
            (op.ttl > 0 ==> now <= op.now + op.ttl) && (op.ttl == 0 && op.lru.value > 0 ==> now <= op.now + op.lru.value) &&
            box.minLat <= op.lat <= box.maxLat && box.minLng <= op.lng <= box.maxLng
  {
    RunLookupIsScan(trace, ps, ops, p, box, now);
    RunStaysConsistent(trace, ps, ops);
    LastOperationStays(ps, ops, i);
    var points := PointsAfter(map[], ps, ops);
    ScanIs(points, box, now);
    if ops[i].u in points {
      assert points[ops[i].u] in points.Values;
    }
  }

  lemma {:induction false} LastOperationStays(ps: seq<Precision>, ops: seq<GeoOp>, i: nat)
    requires |ps| > 0 && i < |ops| && forall j | i < j < |ops| :: ops[j].u != ops[i].u
    ensures var points, op := PointsAfter(map[], ps, ops), ops[i];
            (op.u in points <==> op.SetLoc? && op.lru.Some?) &&
            (op.u in points ==> points[op.u].lat == op.lat && points[op.u].lng == op.lng &&
                                points[op.u].expiresAt == (if op.ttl > 0 then Some(op.now + op.ttl)
                                                           else if op.ttl == 0 && op.lru.value > 0 then Some(op.now + op.lru.value)
                                                           else None))
  {
    var n := |ops| - 1;
    if i < n {
      LastOperationStays(ps, ops[..n], i);
    }
  }

  lemma {:induction false} NeverSetNeverListed(trace: seq<State>, ps: seq<Precision>, ops: seq<GeoOp>, u: UserId)
    requires Ascending(ps) && IsRun(trace, ps, ops) && forall j | 0 <= j < |ops| :: ops[j].u != u
    ensures u !in trace[|ops|].points
  {
    if ops != [] {
      var n := |ops| - 1;
      assert IsRun(trace[..n + 1], ps, ops[..n]);
      NeverSetNeverListed(trace[..n + 1], ps, ops[..n], u);
      RunStaysConsistent(trace, ps, ops);
      RunStaysConsistent(trace[..n + 1], ps, ops[..n]);
    }
  }

  // ----- the store itself

  /** Precisions in ascending order, as the store keeps them. Repeats are kept. */
  function SortAscending(ps: seq<Precision>): seq<Precision> {
    if ps == [] then [] else InsertSorted(SortAscending(ps[1..]), ps[0])
  }

  function InsertSorted(s: seq<Precision>, p: Precision): seq<Precision> {
    if s == [] || p <= s[0] then [p] + s else [s[0]] + InsertSorted(s[1..], p)
  }

  lemma {:induction false} InsertSortedAdds(s: seq<Precision>, p: Precision)
    ensures multiset(InsertSorted(s, p)) == multiset(s) + multiset{p}
  {
    if s != [] {
      assert s == [s[0]] + s[1..];
      if p > s[0] {
        InsertSortedAdds(s[1..], p);
      }
    }
  }

  lemma {:induction false} InsertSortedAscends(s: seq<Precision>, p: Precision)
    requires Ascending(s)
    ensures Ascending(InsertSorted(s, p))
  {
    if s != [] && p > s[0] {
      InsertSortedAscends(s[1..], p);
      InsertSortedAdds(s[1..], p);
      var rest := InsertSorted(s[1..], p);
      forall i | 0 <= i < |rest| ensures s[0] <= rest[i] {
        assert rest[i] in multiset(rest);
        assert rest[i] == p || rest[i] in s[1..];
      }
    }
  }

  lemma {:induction false} SortAscendingSorts(ps: seq<Precision>)
    ensures Ascending(SortAscending(ps)) && multiset(SortAscending(ps)) == multiset(ps)
  {
    if ps != [] {
      SortAscendingSorts(ps[1..]);
      InsertSortedAscends(SortAscending(ps[1..]), ps[0]);
      InsertSortedAdds(SortAscending(ps[1..]), ps[0]);
      assert ps == [ps[0]] + ps[1..];
    }
  }

  lemma EmptyIsConsistent(ps: seq<Precision>)
    requires |ps| > 0
    ensures Consistent(EmptyState(SortAscending(ps)), SortAscending(ps))
  {
    var sorted := SortAscending(ps);
    SortAscendingSorts(ps);
    assert |multiset(sorted)| == |multiset(ps)|;
    EmptyTierExact();
    forall p | p in sorted ensures Positions(map[], p) == map[] {
    }
  }

  lemma EmptyTierExact()
    ensures TierExact(map[], map[])
  {
  }

  /** An empty tier for each precision. */
  method EmptyTiers(ps: seq<Precision>) returns (tiers: Index)
    ensures tiers == EmptyState(ps).index
  {
    tiers := map[];
    for i := 0 to |ps|
      invariant tiers == EmptyState(ps[..i]).index
    {
      assert ps[..i + 1] == ps[..i] + [ps[i]];
      tiers := tiers[ps[i] := map[]];
    }
    assert ps[..|ps|] == ps;
  }

  class GeoStore {
    const precisions: seq<Precision>
    var index: Index
    var points: Points

    ghost function Abstract(): State
      reads this
    {
      State(index, points)
    }

    ghost predicate Valid()
      reads this
    {
      Consistent(Abstract(), precisions)
    }

    /** An empty store. The caller rejects an empty list of precisions. */
    constructor (ps: seq<Precision>)
      requires |ps| > 0
      ensures Valid() && precisions == SortAscending(ps)
      ensures Abstract() == EmptyState(precisions)
    {
      var sorted := SortAscending(ps);
      EmptyIsConsistent(ps);
      var tiers := EmptyTiers(sorted);
      precisions := sorted;
      points := map[];
      index := tiers;
    }

    /** The highest configured precision, whatever order it was configured in. */
    method MaxConfigured() returns (p: Precision)
      requires Valid()
      ensures p in precisions && forall q | q in precisions :: q <= p
    {
      p := precisions[|precisions| - 1];
    }

    method HasPrecision(p: nat) returns (found: bool)
      requires Valid()
      ensures found <==> p in precisions
    {
      for i := 0 to |precisions|
        invariant p !in precisions[..i]
      {
        if precisions[i] == p {
          return true;
        }
      }
      return false;
    }

    method RemoveFromTiers(u: UserId, lat: Coord, lng: Coord)
      requires HasTiers(index, precisions)
      modifies this`index
      ensures index == RemoveTiers(old(index), precisions, u, lat, lng)
    {
      for i := 0 to |precisions|
        invariant HasTiers(old(index), precisions[..i]) && HasTiers(index, precisions)
        invariant index == RemoveTiers(old(index), precisions[..i], u, lat, lng)
      {
        var p := precisions[i];
        assert precisions[..i + 1][..i] == precisions[..i];
        index := index[p := RemoveFrom(index[p], Encode(lat, lng, p), u)];
      }
      assert precisions[..|precisions|] == precisions;
    }

    method InsertIntoTiers(u: UserId, lat: Coord, lng: Coord)
      requires HasTiers(index, precisions)
      modifies this`index
      ensures index == InsertTiers(old(index), precisions, u, lat, lng)
    {
      for i := 0 to |precisions|
        invariant HasTiers(old(index), precisions[..i]) && HasTiers(index, precisions)
        invariant index == InsertTiers(old(index), precisions[..i], u, lat, lng)
      {
        var p := precisions[i];
        assert precisions[..i + 1][..i] == precisions[..i];
        index := index[p := InsertInto(index[p], Encode(lat, lng, p), u)];
      }
      assert precisions[..|precisions|] == precisions;
    }

    /** Store a location in every tier, then in the LRU bucket; roll back when there is none. */
    method SetLocation(u: UserId, lat: Coord, lng: Coord, ttl: int, lru: Option<int>, now: int)
      returns (r: Result<(), GeoError>)
      requires Valid()
      modifies this
      ensures Valid()
      ensures Abstract() == Step(old(Abstract()), precisions, SetLoc(u, lat, lng, ttl, lru, now))
      ensures points == PointsStep(old(points), precisions, SetLoc(u, lat, lng, ttl, lru, now))
      ensures r == if lru.Some? then Success(()) else Failure(NoLruBucket)
      ensures points - {u} == old(points) - {u}
      ensures u in points <==> lru.Some?
      ensures lru.Some? ==>
                points[u].userId == u && points[u].lat == lat && points[u].lng == lng &&
                points[u].expiresAt == (if ttl > 0 then Some(now + ttl)
                                        else if ttl == 0 && lru.value > 0 then Some(now + lru.value)
                                        else None)
    {
      hide PointsStep;
      StepKeepsConsistent(Abstract(), precisions, SetLoc(u, lat, lng, ttl, lru, now));
      SetPoints(points, precisions, u, lat, lng, ttl, lru, now);
      Put(MakeEntry(precisions, u, lat, lng, Deadline(ttl, lru, now)));
      if lru.None? {
        DeleteLocation(u);
        return Failure(NoLruBucket);
      }
      return Success(());
    }

    /** Move a user's entry into the index and the points. */
    method Put(entry: Entry)
      requires Valid() && entry.geohash == Encode(entry.lat, entry.lng, MaxPrecision(precisions))
      modifies this
      ensures Valid() && Abstract() == PutStep(old(Abstract()), precisions, entry)
    {
      ghost var st := Abstract();
      var u := entry.userId;
      if u in points && points[u].geohash != entry.geohash {
        RemoveFromTiers(u, points[u].lat, points[u].lng);
      }
      assert index == Cleared(st, precisions, entry).index;
      InsertIntoTiers(u, entry.lat, entry.lng);
      points := points[u := entry];
      assert Abstract() == PutStep(st, precisions, entry);
      PutKeepsConsistent(st, precisions, entry);
    }

    method DeleteLocation(u: UserId)
      requires Valid()
      modifies this
      ensures Valid()
      ensures Abstract() == DeleteStep(old(Abstract()), precisions, u)
      ensures points == old(points) - {u}
    {
      DeleteKeepsConsistent(Abstract(), precisions, u);
      if u in points {
        RemoveFromTiers(u, points[u].lat, points[u].lng);
        points := points - {u};
      }
    }

    /** Walk the covering cells and keep each user that the exact filter accepts, once. */
    method Collect(cells: set<Cell>, p: Precision, box: Box, now: int) returns (results: seq<Entry>)
      requires Valid() && p in precisions
      ensures ListsExactly(results, Lookup(index[p], points, cells, box, now))
      ensures forall e :: e in results <==>
                (exists u :: u in UsersIn(index[p], cells) && u in points && points[u] == e) &&
                (e.expiresAt == None || now <= e.expiresAt.value) &&
                box.minLat <= e.lat <= box.maxLat && box.minLng <= e.lng <= box.maxLng
    {
      var tier := index[p];
      results := [];
      var seen: set<UserId> := {};
      var todo := cells;
      while todo != {}
        invariant todo <= cells
        invariant Collected(results, seen, UsersIn(tier, cells - todo), box, now)
        decreases todo
      {
        var cell :| cell in todo;
        ghost var visited := UsersIn(tier, cells - todo);
        todo := todo - {cell};
        var ids := Members(tier, cell);
        assert UsersIn(tier, cells - todo) == visited + ids;
        var left := ids;
        while left != {}
          invariant left <= ids
          invariant Collected(results, seen, visited + (ids - left), box, now)
          decreases left
        {
          var u :| u in left;
          ghost var before := visited + (ids - left);
          left := left - {u};
          assert visited + (ids - left) == before + {u};
          if u !in seen && u in points && Matches(points[u], box, now) {
            CollectOne(results, seen, before, box, now, u);
            results := results + [points[u]];
            seen := seen + {u};
          }
        }
        assert visited + (ids - left) == visited + ids;
      }
      assert cells - todo == cells;
      LookupIs(index[p], points, cells, box, now);
      assert forall e :: e in results <==> e in Elements(results);
    }

    /** The users seen are those among the visited ones that match, and the results are
        their entries. */
    ghost predicate Collected(results: seq<Entry>, seen: set<UserId>, visited: set<UserId>, box: Box, now: int)
      reads this
    {
      (forall u :: u in seen <==> u in visited && u in points && Matches(points[u], box, now)) &&
      ListsExactly(results, set u | u in seen && u in points :: points[u])
    }

    lemma CollectOne(results: seq<Entry>, seen: set<UserId>, visited: set<UserId>, box: Box, now: int, u: UserId)
      requires Valid() && Collected(results, seen, visited, box, now)
      requires u !in seen && u in points && Matches(points[u], box, now)
      ensures Collected(results + [points[u]], seen + {u}, visited + {u}, box, now)
    {
      ElementsSnoc(results, points[u]);
      assert points[u] !in Elements(results);
    }

    /** A box query lists exactly the matching points, each once; a precision that is not
        indexed is an error. */
    method BoundingBox(box: Box, p: nat, now: int, nbrs: Cell -> seq<Cell>)
      returns (r: Result<seq<Entry>, GeoError>)
      requires Valid() && CentreInWorld(box) && IsNeighbourFunction(nbrs)
      ensures r.Failure? <==> p !in precisions
      ensures r.Failure? ==> r.error == BadPrecision
      ensures r.Success? ==> ListsExactly(r.value, Scan(points, box, now))
      ensures r.Success? ==>
                forall e :: e in r.value <==>
                  e in points.Values && (e.expiresAt == None || now <= e.expiresAt.value) &&
                  box.minLat <= e.lat <= box.maxLat && box.minLng <= e.lng <= box.maxLng
    {
      var known := HasPrecision(p);
      if !known {
        return Failure(BadPrecision);
      }
      var cells := CoveringCells(box, p, nbrs);
      var results := Collect(cells, p, box, now);
      forall u | u in points && Matches(points[u], box, now)
        ensures u in UsersIn(index[p], cells)
      {
        CoveringFindsAll(Abstract(), precisions, p, box, now, u);
      }
      ScanIs(points, box, now);
      assert forall e :: e in results <==> e in Elements(results);
      return Success(results);
    }

    /** A radius query: the candidates are the points in a box centred on the position whose
        half-sides `delta` derives from the radius, filtered by the distance function. */
    method RadiusQuery(lat: Coord, lng: Coord, radius: real, delta: (real, real, real) -> (real, real),
                       distance: (real, real, real, real) -> real, p: nat, now: int, nbrs: Cell -> seq<Cell>)
      returns (r: Result<seq<Entry>, GeoError>)
      requires Valid() && IsNeighbourFunction(nbrs)
      ensures r.Failure? <==> p !in precisions
      ensures r.Failure? ==> r.error == BadPrecision
      ensures r.Success? ==>
                ListsExactly(r.value, set e | e in Scan(points, BoxAround(lat, lng, delta(lat, lng, radius)), now) &&
                                              distance(lat, lng, e.lat, e.lng) <= radius)
      ensures var d := delta(lat, lng, radius);
              r.Success? ==>
                forall e :: e in r.value <==>
                  e in points.Values && (e.expiresAt == None || now <= e.expiresAt.value) &&
                  -d.0 <= e.lat - lat <= d.0 && -d.1 <= e.lng - lng <= d.1 && distance(lat, lng, e.lat, e.lng) <= radius
    {
      var box := BoxAround(lat, lng, delta(lat, lng, radius));
      var found := BoundingBox(box, p, now, nbrs);
      if found.Failure? {
        return found;
      }
      var candidates := found.value;
      var results := [];
      for i := 0 to |candidates|
        invariant Distinct(results)
        invariant Elements(results) ==
                  set e | e in Elements(candidates[..i]) && distance(lat, lng, e.lat, e.lng) <= radius
      {
        assert candidates[..i + 1] == candidates[..i] + [candidates[i]];
        ElementsSnoc(candidates[..i], candidates[i]);
        if distance(lat, lng, candidates[i].lat, candidates[i].lng) <= radius {
          ElementsSnoc(results, candidates[i]);
          results := results + [candidates[i]];
        }
      }
      assert candidates[..|candidates|] == candidates;
      assert forall e :: e in results <==> e in Elements(results);
      assert forall e :: e in candidates <==> e in Elements(candidates);
      return Success(results);
    }
  }

  function BoxAround(lat: Coord, lng: Coord, delta: (real, real)): (box: Box)
    ensures CentreInWorld(box) && Centre(box) == (lat, lng)
    ensures forall x: real, y: real ::
              Inside(x, y, box) <==> -delta.0 <= x - lat <= delta.0 && -delta.1 <= y - lng <= delta.1
  {
    Box(lat - delta.0, lng - delta.1, lat + delta.0, lng + delta.1)
  }

  /** The stores of all geo buckets, by bucket name. */
  class GeoCache {
    var stores: map<string, GeoStore>

    ghost function Repr(): set<object>
      reads this
    {
      set b | b in stores :: stores[b]
    }

    ghost predicate Valid()
      reads this, Repr()
    {
      (forall b | b in stores :: stores[b].Valid()) &&
      (forall a, b | a in stores && b in stores && a != b :: stores[a] != stores[b])
    }

    constructor ()
      ensures Valid() && stores == map[]
    {
      stores := map[];
    }

    /** Register a store for a bucket. A bucket that has one keeps it, whatever the precisions
        are this time; an empty list of precisions is an error. */
    method CreateStore(bucket: string, ps: seq<Precision>) returns (r: Result<(), GeoError>)
      requires Valid()
      modifies this
      ensures Valid()
      ensures r == if |ps| == 0 then Failure(BadPrecision) else Success(())
      ensures |ps| == 0 || bucket in old(stores) ==> stores == old(stores)
      ensures |ps| > 0 && bucket !in old(stores) ==>
                bucket in stores && stores == old(stores)[bucket := stores[bucket]] && fresh(stores[bucket]) &&
                stores[bucket].precisions == SortAscending(ps) &&
                stores[bucket].Abstract() == EmptyState(SortAscending(ps))
    {
      if |ps| == 0 {
        return Failure(BadPrecision);
      }
      if bucket in stores {
        return Success(());
      }
      var store := new GeoStore(ps);
      stores := stores[bucket := store];
      return Success(());
    }

    /** Set a location in the store of a bucket; every other bucket stays as it is. */
    method SetLocation(bucket: string, u: UserId, lat: Coord, lng: Coord, ttl: int, lru: Option<int>, now: int)
      returns (r: Result<(), GeoError>)
      requires Valid()
      modifies Repr()
      ensures Valid() && stores == old(stores)
      ensures forall b | b in stores && b != bucket :: stores[b].Abstract() == old(stores[b].Abstract())
      ensures bucket !in stores ==> r == Failure(NoGeoBucket)
      ensures bucket in stores ==>
                r == (if lru.Some? then Success(()) else Failure(NoLruBucket)) &&
                stores[bucket].points ==
                PointsStep(old(stores[bucket].points), stores[bucket].precisions, SetLoc(u, lat, lng, ttl, lru, now)) &&
                stores[bucket].points - {u} == old(stores[bucket].points) - {u} && (u in stores[bucket].points <==> lru.Some?)
      ensures bucket in stores && lru.Some? ==>
                var e := stores[bucket].points[u];
                e.userId == u && e.lat == lat && e.lng == lng &&
                e.expiresAt == (if ttl > 0 then Some(now + ttl)
                                else if ttl == 0 && lru.value > 0 then Some(now + lru.value)
                                else None)
    {
      if bucket !in stores {
        return Failure(NoGeoBucket);
      }
      r := stores[bucket].SetLocation(u, lat, lng, ttl, lru, now);
    }

    /** Delete a location from the store of a bucket, then from the LRU bucket, whose answer is
        `lru`: the caller gets that answer, not found for an absent user included, while the
        geo index has dropped the user either way. */
    method DeleteLocation(bucket: string, u: UserId, lru: Result<(), GeoError>) returns (r: Result<(), GeoError>)
      requires Valid()
      modifies Repr()
      ensures Valid() && stores == old(stores)
      ensures forall b | b in stores && b != bucket :: stores[b].Abstract() == old(stores[b].Abstract())
      ensures r == if bucket in stores then lru else Failure(NoGeoBucket)
      ensures bucket in stores ==> stores[bucket].points == old(stores[bucket].points) - {u}
    {
      if bucket !in stores {
        return Failure(NoGeoBucket);
      }
      stores[bucket].DeleteLocation(u);
      return lru;
    }

    /** A box query on a bucket: what a scan of that bucket's own points would give. */
    method BoundingBox(bucket: string, box: Box, p: nat, now: int, nbrs: Cell -> seq<Cell>)
      returns (r: Result<seq<Entry>, GeoError>)
      requires Valid() && CentreInWorld(box) && IsNeighbourFunction(nbrs)
      ensures bucket !in stores ==> r == Failure(NoGeoBucket)
      ensures bucket in stores && p !in stores[bucket].precisions ==> r == Failure(BadPrecision)
      ensures bucket in stores && p in stores[bucket].precisions ==>
                r.Success? && ListsExactly(r.value, Scan(stores[bucket].points, box, now)) &&
                forall e :: e in r.value <==>
                  e in stores[bucket].points.Values && (e.expiresAt == None || now <= e.expiresAt.value) &&
                  box.minLat <= e.lat <= box.maxLat && box.minLng <= e.lng <= box.maxLng
    {
      if bucket !in stores {
        return Failure(NoGeoBucket);
      }
      r := stores[bucket].BoundingBox(box, p, now, nbrs);
    }
  }
}
