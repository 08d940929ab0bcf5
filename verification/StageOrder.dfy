/** Reordering the stages of a sales pipeline: N single-row writes under an immediate unique
    index on (pipeline, sort order), in two phases inside one transaction. */
module StageOrder {
  import opened Wrappers

  const MAX_POSTGRES_INTEGER := 2147483647

  /** One row of the tenant's stage table. */
  datatype Stage = Stage(id: string, pipelineId: string, name: string, sortOrder: int, status: string)

  // ----- The request body -----

  /** An element of the submitted list: a string, or some other JSON value. */
  datatype Item = Text(text: string) | NotText

  datatype Parsed = Order(stageIds: seq<string>) | InvalidStageOrder | InvalidStageId

  predicate IsLower(c: char) { 'a' <= c <= 'z' }

  predicate IsId(s: string) {
    && 3 <= |s| <= 81 && IsLower(s[0])
    && forall i :: 1 <= i < |s| ==> IsLower(s[i]) || '0' <= s[i] <= '9' || s[i] == '-'
  }

  lemma LetterMeans(c: char)
    ensures IsLower(c) <==> c in "abcdefghijklmnopqrstuvwxyz"
    ensures IsLower(c) || '0' <= c <= '9' || c == '-' <==> c in "abcdefghijklmnopqrstuvwxyz0123456789-"
  {
  }

  predicate IsIdItem(item: Item) { item.Text? && IsId(item.text) }

  ghost predicate DistinctIds(raw: seq<Item>, n: nat)
    requires n <= |raw|
  {
    (forall i :: 0 <= i < n ==> IsIdItem(raw[i])) && (forall i, j :: 0 <= i < j < n ==> raw[i] != raw[j])
  }

  /** An identifier in characters: 3 to 81 of them, a letter first, then letters, digits and hyphens. */
  lemma IdMeans(item: Item)
    ensures IsIdItem(item) <==>
      && item.Text? && 3 <= |item.text| <= 81 && item.text[0] in "abcdefghijklmnopqrstuvwxyz"
      && forall i :: 1 <= i < |item.text| ==> item.text[i] in "abcdefghijklmnopqrstuvwxyz0123456789-"
  {
    forall c: char
      ensures IsLower(c) <==> c in "abcdefghijklmnopqrstuvwxyz"
      ensures IsLower(c) || '0' <= c <= '9' || c == '-' <==> c in "abcdefghijklmnopqrstuvwxyz0123456789-"
    {
      LetterMeans(c);
    }
  }

  /** Accepts exactly the non-empty lists of distinct identifiers, and returns them unchanged. */
  method ParseStageOrder(raw: seq<Item>) returns (r: Parsed)
    ensures r.Order? ==> Distinct(r.stageIds) && |r.stageIds| == |raw| > 0
    ensures r.Order? ==> forall i :: 0 <= i < |raw| ==> IsIdItem(raw[i]) && raw[i].text == r.stageIds[i]
    ensures r.Order? <==> |raw| > 0 && DistinctIds(raw, |raw|)
    ensures r.InvalidStageId? <==> exists n :: 0 <= n < |raw| && DistinctIds(raw, n) && !IsIdItem(raw[n])
  {
    if |raw| == 0 {
      return InvalidStageOrder;
    }
    var stageIds: seq<string> := [];
    for n := 0 to |raw|
      invariant |stageIds| == n
      invariant forall i :: 0 <= i < n ==> IsIdItem(raw[i]) && raw[i].text == stageIds[i]
      invariant Distinct(stageIds) && DistinctIds(raw, n)
    {
      if !IsIdItem(raw[n]) {
        return InvalidStageId;
      }
      if raw[n].text in stageIds {
        var i :| 0 <= i < n && stageIds[i] == raw[n].text;
        assert raw[i] == raw[n];
        return InvalidStageOrder;
      }
      stageIds := stageIds + [raw[n].text];
    }
    assert forall i, j :: 0 <= i < j < |raw| ==> stageIds[i] != stageIds[j] ==> raw[i] != raw[j];
    return Order(stageIds);
  }

  // ----- The table and its unique index -----

  ghost predicate UniqueIds(rows: seq<Stage>) {
    forall i, j :: 0 <= i < j < |rows| ==> rows[i].id != rows[j].id
  }

  predicate Collide(a: Stage, b: Stage) {
    a.id != b.id && a.pipelineId == b.pipelineId && a.sortOrder == b.sortOrder
  }

  ghost predicate UniqueSlots(rows: seq<Stage>) {
    forall i, j :: 0 <= i < |rows| && 0 <= j < |rows| ==> !Collide(rows[i], rows[j])
  }

  datatype Written = Rows(rows: seq<Stage>) | NoRow | OutOfRange | SlotTaken

  predicate Has(rows: seq<Stage>, id: string) { exists i :: 0 <= i < |rows| && rows[i].id == id }

  /** The table with the row of this id replaced. */
  function Replaced(rows: seq<Stage>, s: Stage): (r: seq<Stage>)
    ensures |r| == |rows| && forall i :: 0 <= i < |rows| ==> r[i] == if rows[i].id == s.id then s else rows[i]
  {
    seq(|rows|, i requires 0 <= i < |rows| => if rows[i].id == s.id then s else rows[i])
  }

  /** One UPDATE of a whole row, checked at once against the column type and the index. */
  function Write(rows: seq<Stage>, s: Stage): Written {
    if !Has(rows, s.id) then NoRow
    else if s.sortOrder > MAX_POSTGRES_INTEGER then OutOfRange
    else if exists i :: 0 <= i < |rows| && Collide(s, rows[i]) then SlotTaken
    else Rows(Replaced(rows, s))
  }

  /** The outcome of one write, row by row: which of them wants the row gone, out of the column's
      range or off the slot of another row of its pipeline, and what an accepted one leaves. */
  lemma WriteExactlyWhen(rows: seq<Stage>, s: Stage)
    ensures var w := Write(rows, s);
      var known, fits := exists r :: r in rows && r.id == s.id, s.sortOrder <= 2147483647;
      var taken := exists r :: r in rows && r.id != s.id && r.pipelineId == s.pipelineId && r.sortOrder == s.sortOrder;
      && (w.NoRow? <==> !known)
      && (w.OutOfRange? <==> known && !fits)
      && (w.SlotTaken? <==> known && fits && taken)
      && (w.Rows? <==> known && fits && !taken)
      && (w.Rows? ==> |w.rows| == |rows| && forall i :: 0 <= i < |rows| ==> w.rows[i] == if rows[i].id == s.id then s else rows[i])
  {
    if Has(rows, s.id) {
      var i :| 0 <= i < |rows| && rows[i].id == s.id;
      assert rows[i] in rows;
    }
    if i :| 0 <= i < |rows| && Collide(s, rows[i]) {
      assert rows[i] in rows;
    }
  }

  /** Checking one row at once is checking the whole table: a write is accepted if and only if the
      row is there, the slot is in range and the table with the row replaced keeps the index. */
  lemma AcceptedExactlyWhen(rows: seq<Stage>, s: Stage)
    requires UniqueIds(rows) && UniqueSlots(rows)
    ensures Write(rows, s).Rows? <==> Has(rows, s.id) && s.sortOrder <= MAX_POSTGRES_INTEGER && UniqueSlots(Replaced(rows, s))
    ensures Write(rows, s).Rows? ==> UniqueIds(Write(rows, s).rows) && UniqueSlots(Write(rows, s).rows)
  {
    var after := Replaced(rows, s);
    if Has(rows, s.id) {
      var r :| 0 <= r < |rows| && rows[r].id == s.id;
      assert after[r] == s;
      forall i | 0 <= i < |rows| && Collide(s, rows[i])
        ensures Collide(after[r], after[i])
      {
      }
      if forall i :: 0 <= i < |rows| ==> !Collide(s, rows[i]) {
        ApartStays(rows, s);
      }
    }
  }

  lemma ApartStays(rows: seq<Stage>, s: Stage)
    requires UniqueSlots(rows) && forall i :: 0 <= i < |rows| ==> !Collide(s, rows[i])
    ensures UniqueSlots(Replaced(rows, s))
  {
    var after := Replaced(rows, s);
    forall i, j | 0 <= i < |rows| && 0 <= j < |rows|
      ensures !Collide(after[i], after[j])
    {
      assert !Collide(rows[i], rows[j]) && !Collide(s, rows[i]) && !Collide(s, rows[j]);
    }
  }

  class StageStore {
    var rows: seq<Stage>

    constructor (initial: seq<Stage>)
      ensures rows == initial
    {
      rows := initial;
    }

    method UpdateDealStage(s: Stage) returns (w: Written)
      modifies this
      ensures w == Write(old(rows), s)
      ensures rows == if w.Rows? then Replaced(old(rows), s) else old(rows)
      ensures old(UniqueIds(rows) && UniqueSlots(rows)) ==>
        && UniqueIds(rows) && UniqueSlots(rows)
        && (w.Rows? <==> Has(old(rows), s.id) && s.sortOrder <= MAX_POSTGRES_INTEGER && UniqueSlots(Replaced(old(rows), s)))
    {
      if UniqueIds(rows) && UniqueSlots(rows) {
        AcceptedExactlyWhen(rows, s);
      }
      w := Write(rows, s);
      if w.Rows? {
        rows := w.rows;
      }
    }
  }

  // ----- What a reorder is meant to do -----

  function InPipeline(rows: seq<Stage>, pipelineId: string): (r: seq<Stage>)
    ensures forall s :: s in r <==> s in rows && s.pipelineId == pipelineId
  {
    if |rows| == 0 then []
    else (if rows[0].pipelineId == pipelineId then [rows[0]] else []) + InPipeline(rows[1..], pipelineId)
  }

  /** The requested list names the stages of the pipeline, all of them. */
  predicate Covers(requested: seq<string>, current: seq<Stage>) {
    |current| == |requested| && forall id :: id in requested ==> Has(current, id)
  }

  function IndexOf(ids: seq<string>, id: string): (n: nat)
    requires id in ids
    ensures n < |ids| && ids[n] == id
  {
    if ids[0] == id then 0 else 1 + IndexOf(ids[1..], id)
  }

  /** Row `s` when the first `k` requested stages sit in temporary slots from `base` on and the
      first `m` of them already in their final ones. */
  function Moved(s: Stage, pipelineId: string, requested: seq<string>, base: int, k: nat, m: nat): Stage {
    if s.pipelineId != pipelineId || s.id !in requested then s
    else
      var n := IndexOf(requested, s.id);
      if n < m then s.(sortOrder := n + 1)
      else if n < k then s.(sortOrder := base + n)
      else s
  }

  function Progress(rows: seq<Stage>, pipelineId: string, requested: seq<string>, base: int, k: nat, m: nat): seq<Stage> {
    seq(|rows|, i requires 0 <= i < |rows| => Moved(rows[i], pipelineId, requested, base, k, m))
  }

  /** The stages of the pipeline numbered 1..N in the requested order, everything else untouched. */
  function Renumbered(rows: seq<Stage>, pipelineId: string, requested: seq<string>): seq<Stage> {
    Progress(rows, pipelineId, requested, 0, |requested|, |requested|)
  }

  function Highest(stages: seq<Stage>): (h: int)
    ensures h >= 0 && forall s :: s in stages ==> s.sortOrder <= h
  {
    if |stages| == 0 then 0 else Max(stages[0].sortOrder, Highest(stages[1..]))
  }

  // ----- The two pigeonhole facts -----

  lemma {:induction false} StageCount(stages: seq<Stage>)
    ensures |set s | s in stages :: s.id| <= |stages|
  {
    if |stages| > 0 {
      StageCount(stages[1..]);
      assert stages == [stages[0]] + stages[1..];
      assert (set s | s in stages :: s.id) == {stages[0].id} + (set s | s in stages[1..] :: s.id);
    }
  }

  lemma SubsetOfSameSize(a: set<string>, b: set<string>)
    requires a <= b && |a| >= |b|
    ensures a == b
  {
    assert b == a + (b - a);
  }

  /** No duplicates, the right length and all known: the request is a permutation. */
  lemma CoveringIsPermutation(requested: seq<string>, current: seq<Stage>)
    requires Distinct(requested) && Covers(requested, current)
    ensures forall s :: s in current ==> s.id in requested
  {
    var asked, present := set id | id in requested, set s | s in current :: s.id;
    DistinctCount(requested);
    StageCount(current);
    assert asked <= present;
    SubsetOfSameSize(asked, present);
    forall s | s in current
      ensures s.id in requested
    {
      assert s.id in present;
    }
  }

  /** A table with unique ids gives a pipeline each of its ids once. */
  lemma {:induction false} InPipelineIsUnique(rows: seq<Stage>, pipelineId: string)
    requires UniqueIds(rows)
    ensures UniqueIds(InPipeline(rows, pipelineId))
  {
    if |rows| > 0 {
      InPipelineIsUnique(rows[1..], pipelineId);
      var rest := InPipeline(rows[1..], pipelineId);
      forall j | 0 <= j < |rest|
        ensures rest[j].id != rows[0].id
      {
        assert rest[j] in rows[1..];
      }
    }
  }

  lemma UniqueIdCount(stages: seq<Stage>)
    requires UniqueIds(stages)
    ensures |set s | s in stages :: s.id| == |stages|
  {
    var ids := seq(|stages|, i requires 0 <= i < |stages| => stages[i].id);
    var present := set s | s in stages :: s.id;
    forall id | id in ids
      ensures id in present
    {
      var i :| 0 <= i < |ids| && ids[i] == id;
      assert stages[i] in stages;
    }
    forall s | s in stages
      ensures s.id in ids
    {
      var i :| 0 <= i < |stages| && stages[i] == s;
      assert ids[i] == s.id;
    }
    assert present == set id | id in ids;
    DistinctCount(ids);
  }

  /** Some row of the pipeline has this id. */
  ghost predicate Names(rows: seq<Stage>, pipelineId: string, id: string) {
    exists s :: s in rows && s.id == id && s.pipelineId == pipelineId
  }

  /** Counting and looking up is the same as having the same ids: what the request must name is
      exactly the ids of the rows of the pipeline, in any order. */
  lemma CoversExactlyWhen(rows: seq<Stage>, pipelineId: string, requested: seq<string>)
    requires UniqueIds(rows) && Distinct(requested)
    ensures Covers(requested, InPipeline(rows, pipelineId)) <==> forall id :: id in requested <==> Names(rows, pipelineId, id)
  {
    var current := InPipeline(rows, pipelineId);
    var asked, present := set id | id in requested, set s | s in current :: s.id;
    forall id
      ensures Names(rows, pipelineId, id) <==> Has(current, id)
      ensures id in present <==> Has(current, id)
    {
      HasMeans(rows, pipelineId, id);
    }
    DistinctCount(requested);
    InPipelineIsUnique(rows, pipelineId);
    UniqueIdCount(current);
    if Covers(requested, current) {
      CoveringIsPermutation(requested, current);
      assert asked == present;
    } else if forall id :: id in requested <==> Names(rows, pipelineId, id) {
      assert asked == present;
    }
  }

  lemma HasMeans(rows: seq<Stage>, pipelineId: string, id: string)
    ensures Names(rows, pipelineId, id) <==> Has(InPipeline(rows, pipelineId), id)
    ensures Has(InPipeline(rows, pipelineId), id) <==> exists s :: s in InPipeline(rows, pipelineId) && s.id == id
  {
    var current := InPipeline(rows, pipelineId);
    if Has(current, id) {
      var i :| 0 <= i < |current| && current[i].id == id;
      assert current[i] in rows;
    }
    if s :| s in rows && s.id == id && s.pipelineId == pipelineId {
      assert s in current;
      var i :| 0 <= i < |current| && current[i] == s;
    }
  }

  lemma {:induction false} HighestIsHeld(stages: seq<Stage>)
    ensures Highest(stages) == 0 || exists s :: s in stages && s.sortOrder == Highest(stages)
  {
    if |stages| > 0 {
      HighestIsHeld(stages[1..]);
      assert stages == [stages[0]] + stages[1..];
      assert stages[0] in stages;
    }
  }

  /** There is room for the temporary slots exactly when there is above every row of the pipeline. */
  lemma RoomExactlyWhen(rows: seq<Stage>, pipelineId: string, n: nat)
    ensures Highest(InPipeline(rows, pipelineId)) + n <= 2147483647 <==>
      n <= 2147483647 && forall s :: s in rows && s.pipelineId == pipelineId ==> s.sortOrder + n <= 2147483647
  {
    HighestIsHeld(InPipeline(rows, pipelineId));
  }

  // ----- Every intermediate state respects the index -----

  lemma IndexOfAt(ids: seq<string>, n: nat)
    requires Distinct(ids) && n < |ids|
    ensures IndexOf(ids, ids[n]) == n
  {
  }

  ghost predicate Ready(rows: seq<Stage>, pipelineId: string, requested: seq<string>, base: int) {
    && UniqueIds(rows) && UniqueSlots(rows) && Distinct(requested)
    && Covers(requested, InPipeline(rows, pipelineId))
    && base == Highest(InPipeline(rows, pipelineId)) + 1
  }

  lemma MovedApart(a: Stage, b: Stage, pipelineId: string, requested: seq<string>, base: int, k: nat, m: nat)
    requires m <= k <= |requested| && (m == 0 || k == |requested|) && base >= 1 && !Collide(a, b)
    requires a.pipelineId == pipelineId ==> a.id in requested && a.sortOrder < base
    requires b.pipelineId == pipelineId ==> b.id in requested && b.sortOrder < base
    ensures !Collide(Moved(a, pipelineId, requested, base, k, m), Moved(b, pipelineId, requested, base, k, m))
  {
  }

  lemma SlotsStayUnique(rows: seq<Stage>, pipelineId: string, requested: seq<string>, base: int, k: nat, m: nat)
    requires Ready(rows, pipelineId, requested, base) && m <= k <= |requested| && (m == 0 || k == |requested|)
    ensures UniqueSlots(Progress(rows, pipelineId, requested, base, k, m))
  {
    CoveringIsPermutation(requested, InPipeline(rows, pipelineId));
    var next := Progress(rows, pipelineId, requested, base, k, m);
    forall i, j | 0 <= i < |rows| && 0 <= j < |rows|
      ensures !Collide(next[i], next[j])
    {
      assert !Collide(rows[i], rows[j]);
      assert rows[i] in rows && rows[j] in rows;
      MovedApart(rows[i], rows[j], pipelineId, requested, base, k, m);
    }
  }

  /** One write of either phase: the row goes to its slot, and nothing collides on the way. */
  lemma WriteAdvances(rows: seq<Stage>, pipelineId: string, requested: seq<string>, base: int, k: nat, m: nat, s: Stage)
    requires Ready(rows, pipelineId, requested, base)
    requires k < |requested| ==> m == 0
    requires m < |requested| && k <= |requested| && s in rows && s.pipelineId == pipelineId
    requires s.id == requested[if k < |requested| then k else m]
    ensures var phase1 := k < |requested|;
            var slot := if phase1 then base + k else m + 1;
            var before := Progress(rows, pipelineId, requested, base, k, m);
            var after := if phase1 then Progress(rows, pipelineId, requested, base, k + 1, 0)
                         else Progress(rows, pipelineId, requested, base, k, m + 1);
            Write(before, s.(sortOrder := slot)) == if slot > MAX_POSTGRES_INTEGER then OutOfRange else Rows(after)
  {
    var phase1 := k < |requested|;
    var k', m' := if phase1 then k + 1 else k, if phase1 then 0 else m + 1;
    var moved := s.(sortOrder := if phase1 then base + k else m + 1);
    SlotsStayUnique(rows, pipelineId, requested, base, k', m');
    forall i | 0 <= i < |rows|
      ensures Moved(rows[i], pipelineId, requested, base, k', m') ==
              if rows[i].id == s.id then moved else Moved(rows[i], pipelineId, requested, base, k, m)
    {
      OneMoves(rows[i], s, pipelineId, requested, base, k, m);
    }
    WriteReaches(rows, Progress(rows, pipelineId, requested, base, k, m), Progress(rows, pipelineId, requested, base, k', m'),
                 s, moved);
  }

  /** From `before` to `after` by one row, where `after` keeps the index. */
  lemma WriteReaches(rows: seq<Stage>, before: seq<Stage>, after: seq<Stage>, s: Stage, moved: Stage)
    requires |before| == |after| == |rows| && s in rows && moved.id == s.id && UniqueSlots(after)
    requires forall i :: 0 <= i < |rows| ==> before[i].id == rows[i].id
    requires forall i :: 0 <= i < |rows| ==> after[i] == if rows[i].id == s.id then moved else before[i]
    ensures Write(before, moved) == if moved.sortOrder > MAX_POSTGRES_INTEGER then OutOfRange else Rows(after)
  {
    var r :| 0 <= r < |rows| && rows[r] == s;
    assert before[r].id == s.id && after[r] == moved;
    forall i | 0 <= i < |rows|
      ensures !Collide(moved, before[i])
    {
      assert !Collide(after[r], after[i]);
    }
    WriteOne(before, after, moved);
  }

  /** A write that moves one row only, to a slot nobody has. */
  lemma WriteOne(before: seq<Stage>, after: seq<Stage>, moved: Stage)
    requires |before| == |after| && Has(before, moved.id)
    requires forall i :: 0 <= i < |before| ==>
      after[i] == (if before[i].id == moved.id then moved else before[i]) && !Collide(moved, before[i])
    ensures Write(before, moved) == if moved.sortOrder > MAX_POSTGRES_INTEGER then OutOfRange else Rows(after)
  {
  }

  lemma OneMoves(x: Stage, s: Stage, pipelineId: string, requested: seq<string>, base: int, k: nat, m: nat)
    requires Distinct(requested) && k <= |requested| && m < |requested| && (k < |requested| ==> m == 0)
    requires s.pipelineId == pipelineId && s.id == requested[if k < |requested| then k else m]
    requires x.id == s.id ==> x == s
    ensures var phase1 := k < |requested|;
            Moved(x, pipelineId, requested, base, if phase1 then k + 1 else k, if phase1 then 0 else m + 1) ==
            if x.id == s.id then s.(sortOrder := if phase1 then base + k else m + 1)
            else Moved(x, pipelineId, requested, base, k, m)
  {
    IndexOfAt(requested, if k < |requested| then k else m);
  }

  // ----- The handler's transaction -----

  datatype Reply = Reordered(stages: seq<Stage>) | StageOrderConflict | ServerError

  /** The stage `id` names, with its final slot. */
  function Placed(rows: seq<Stage>, pipelineId: string, requested: seq<string>): seq<Stage>
    requires Covers(requested, InPipeline(rows, pipelineId))
  {
    seq(|requested|, n requires 0 <= n < |requested| =>
      StageById(InPipeline(rows, pipelineId), requested[n]).(sortOrder := n + 1))
  }

  function StageById(stages: seq<Stage>, id: string): (s: Stage)
    requires Has(stages, id)
    ensures s in stages && s.id == id
  {
    if stages[0].id == id then stages[0]
    else
      assert Has(stages[1..], id) by {
        var i :| 0 <= i < |stages| && stages[i].id == id;
        assert stages[1..][i - 1].id == id;
      }
      StageById(stages[1..], id)
  }

  method HighestOf(stages: seq<Stage>) returns (h: int)
    ensures h == Highest(stages)
  {
    h := 0;
    assert stages[0..] == stages;
    for n := 0 to |stages|
      invariant h >= 0 && Max(h, Highest(stages[n..])) == Highest(stages)
    {
      h := Max(h, stages[n].sortOrder);
      assert stages[n..][1..] == stages[n + 1..];
    }
    assert stages[|stages|..] == [];
  }

  /** One write of the first phase. */
  method PutAside(store: StageStore, ghost rows: seq<Stage>, pipelineId: string, current: seq<Stage>,
                  requested: seq<string>, base: int, n: nat)
    returns (fits: bool)
    requires current == InPipeline(rows, pipelineId) && Ready(rows, pipelineId, requested, base) && n < |requested|
    requires store.rows == Progress(rows, pipelineId, requested, base, n, 0)
    modifies store
    ensures fits <==> base + n <= MAX_POSTGRES_INTEGER
    ensures fits ==> store.rows == Progress(rows, pipelineId, requested, base, n + 1, 0)
  {
    var stage := StageById(current, requested[n]);
    WriteAdvances(rows, pipelineId, requested, base, n, 0, stage);
    var w := store.UpdateDealStage(stage.(sortOrder := base + n));
    return w.Rows?;
  }

  /** First phase: into temporary slots above every occupied one. */
  method MoveAside(store: StageStore, pipelineId: string, current: seq<Stage>, requested: seq<string>, base: int)
    returns (fits: bool)
    requires current == InPipeline(store.rows, pipelineId) && Ready(store.rows, pipelineId, requested, base)
    modifies store
    ensures fits <==> |requested| == 0 || base + |requested| - 1 <= MAX_POSTGRES_INTEGER
    ensures fits ==> store.rows == Progress(old(store.rows), pipelineId, requested, base, |requested|, 0)
  {
    ghost var rows := store.rows;
    assert Progress(rows, pipelineId, requested, base, 0, 0) == rows;
    for n := 0 to |requested|
      invariant store.rows == Progress(rows, pipelineId, requested, base, n, 0)
      invariant n > 0 ==> base + n - 1 <= MAX_POSTGRES_INTEGER
    {
      var moved := PutAside(store, rows, pipelineId, current, requested, base, n);
      if !moved {
        return false;
      }
    }
    return true;
  }

  /** One write of the second phase. */
  method PutInPlace(store: StageStore, ghost rows: seq<Stage>, pipelineId: string, current: seq<Stage>,
                    requested: seq<string>, ghost base: int, n: nat)
    returns (placed: Stage)
    requires current == InPipeline(rows, pipelineId) && Ready(rows, pipelineId, requested, base)
    requires n < |requested| <= MAX_POSTGRES_INTEGER
    requires store.rows == Progress(rows, pipelineId, requested, base, |requested|, n)
    modifies store
    ensures store.rows == Progress(rows, pipelineId, requested, base, |requested|, n + 1)
    ensures placed == StageById(current, requested[n]).(sortOrder := n + 1)
  {
    var stage := StageById(current, requested[n]);
    WriteAdvances(rows, pipelineId, requested, base, |requested|, n, stage);
    placed := stage.(sortOrder := n + 1);
    var w := store.UpdateDealStage(placed);
  }

  lemma PlacedNext(placed: seq<Stage>, n: nat)
    requires n < |placed|
    ensures placed[..n + 1] == placed[..n] + [placed[n]]
  {
  }

  /** Second phase: into the final slots 1..N. */
  method MoveIntoPlace(store: StageStore, ghost rows: seq<Stage>, pipelineId: string, current: seq<Stage>,
                       requested: seq<string>, ghost base: int)
    returns (reordered: seq<Stage>)
    requires current == InPipeline(rows, pipelineId) && Ready(rows, pipelineId, requested, base)
    requires store.rows == Progress(rows, pipelineId, requested, base, |requested|, 0)
    requires |requested| <= MAX_POSTGRES_INTEGER
    modifies store
    ensures store.rows == Progress(rows, pipelineId, requested, base, |requested|, |requested|)
    ensures reordered == Placed(rows, pipelineId, requested)
  {
    reordered := [];
    for n := 0 to |requested|
      invariant store.rows == Progress(rows, pipelineId, requested, base, |requested|, n)
      invariant reordered == Placed(rows, pipelineId, requested)[..n]
    {
      var stage := PutInPlace(store, rows, pipelineId, current, requested, base, n);
      PlacedNext(Placed(rows, pipelineId, requested), n);
      reordered := reordered + [stage];
    }
    assert Placed(rows, pipelineId, requested)[..|requested|] == Placed(rows, pipelineId, requested);
  }

  /** The transaction: a changed set of stages is a conflict, and a temporary slot outside the
      column rolls everything back. */
  method Transact(store: StageStore, pipelineId: string, requested: seq<string>) returns (r: Reply)
    requires UniqueIds(store.rows) && UniqueSlots(store.rows)
    requires Distinct(requested) && |requested| > 0
    modifies store
    ensures var rows := old(store.rows); var current := InPipeline(rows, pipelineId);
      && (r.StageOrderConflict? <==> !Covers(requested, current))
      && (r.Reordered? <==> Covers(requested, current) && Highest(current) + |requested| <= MAX_POSTGRES_INTEGER)
      && (r.Reordered? ==> r.stages == Placed(rows, pipelineId, requested))
      && store.rows == if r.Reordered? then Renumbered(rows, pipelineId, requested) else rows
  {
    var rows := store.rows;
    var current := InPipeline(rows, pipelineId);
    if !Covers(requested, current) {
      return StageOrderConflict;
    }
    var highest := HighestOf(current);
    var base := highest + 1;
    var fits := MoveAside(store, pipelineId, current, requested, base);
    if !fits {
      store.rows := rows;
      return ServerError;
    }
    var reordered := MoveIntoPlace(store, rows, pipelineId, current, requested, base);
    FullProgress(rows, pipelineId, requested, base);
    return Reordered(reordered);
  }

  /** The stages are re-read inside the transaction, so whatever was committed before it (a new
      name, another status) is kept.  The request must name exactly the stages the pipeline has now,
      in any order, and the reorder then succeeds if and only if every temporary slot fits the column. */
  method ReorderStages(store: StageStore, pipelineId: string, requested: seq<string>) returns (r: Reply)
    requires UniqueIds(store.rows) && UniqueSlots(store.rows)
    requires Distinct(requested) && |requested| > 0
    modifies store
    ensures r.StageOrderConflict? <==>
      !forall id :: id in requested <==> exists s :: s in old(store.rows) && s.id == id && s.pipelineId == pipelineId
    ensures r.Reordered? <==>
      && !r.StageOrderConflict? && |requested| <= 2147483647
      && forall s :: s in old(store.rows) && s.pipelineId == pipelineId ==> s.sortOrder + |requested| <= 2147483647
    ensures r.Reordered? ==>
      && |r.stages| == |requested|
      && forall n :: 0 <= n < |requested| ==>
        r.stages[n].id == requested[n] && r.stages[n].sortOrder == n + 1 && r.stages[n] in store.rows
    ensures !r.Reordered? ==> store.rows == old(store.rows)
    ensures r.Reordered? ==>
      && |store.rows| == |old(store.rows)|
      && forall i {:trigger store.rows[i]} :: 0 <= i < |store.rows| ==>
        if old(store.rows)[i].pipelineId != pipelineId then store.rows[i] == old(store.rows)[i]
        else
          && store.rows[i] == old(store.rows)[i].(sortOrder := store.rows[i].sortOrder)
          && 1 <= store.rows[i].sortOrder <= |requested| && requested[store.rows[i].sortOrder - 1] == old(store.rows)[i].id
    ensures forall a, b :: a in store.rows && b in store.rows && a.id != b.id && a.pipelineId == b.pipelineId ==>
      a.sortOrder != b.sortOrder
  {
    ghost var rows := store.rows;
    r := Transact(store, pipelineId, requested);
    OutcomeMeans(rows, pipelineId, requested, r, store.rows);
  }

  /** What the transaction promises in terms of positions and counts, said row by row. */
  lemma OutcomeMeans(rows: seq<Stage>, pipelineId: string, requested: seq<string>, r: Reply, after: seq<Stage>)
    requires UniqueIds(rows) && UniqueSlots(rows) && Distinct(requested)
    requires var current := InPipeline(rows, pipelineId);
      && (r.StageOrderConflict? <==> !Covers(requested, current))
      && (r.Reordered? <==> Covers(requested, current) && Highest(current) + |requested| <= MAX_POSTGRES_INTEGER)
      && (r.Reordered? ==> r.stages == Placed(rows, pipelineId, requested))
      && after == if r.Reordered? then Renumbered(rows, pipelineId, requested) else rows
    ensures r.StageOrderConflict? <==>
      !forall id :: id in requested <==> exists s :: s in rows && s.id == id && s.pipelineId == pipelineId
    ensures r.Reordered? <==>
      && !r.StageOrderConflict? && |requested| <= 2147483647
      && forall s :: s in rows && s.pipelineId == pipelineId ==> s.sortOrder + |requested| <= 2147483647
    ensures r.Reordered? ==>
      && |r.stages| == |requested|
      && forall n :: 0 <= n < |requested| ==>
        r.stages[n].id == requested[n] && r.stages[n].sortOrder == n + 1 && r.stages[n] in after
    ensures r.Reordered? ==> InOrder(rows, pipelineId, requested, after)
    ensures forall a, b :: a in after && b in after && a.id != b.id && a.pipelineId == b.pipelineId ==> a.sortOrder != b.sortOrder
  {
    CoversExactlyWhen(rows, pipelineId, requested);
    RoomExactlyWhen(rows, pipelineId, |requested|);
    if r.Reordered? {
      RenumberedIsDense(rows, pipelineId, requested);
      PlacedIsStored(rows, pipelineId, requested);
    }
    SlotsMean(after);
  }

  lemma SlotsMean(rows: seq<Stage>)
    requires UniqueSlots(rows)
    ensures forall a, b :: a in rows && b in rows && a.id != b.id && a.pipelineId == b.pipelineId ==> a.sortOrder != b.sortOrder
  {
    forall a, b | a in rows && b in rows && a.id != b.id && a.pipelineId == b.pipelineId
      ensures a.sortOrder != b.sortOrder
    {
      var i, j :| 0 <= i < |rows| && 0 <= j < |rows| && rows[i] == a && rows[j] == b;
      assert !Collide(rows[i], rows[j]);
    }
  }

  /** What is sent back is what was stored. */
  lemma PlacedIsStored(rows: seq<Stage>, pipelineId: string, requested: seq<string>)
    requires Distinct(requested) && UniqueIds(rows) && Covers(requested, InPipeline(rows, pipelineId))
    ensures var r := Placed(rows, pipelineId, requested);
      forall n :: 0 <= n < |requested| ==>
        r[n].id == requested[n] && r[n].sortOrder == n + 1 && r[n] in Renumbered(rows, pipelineId, requested)
  {
    var after := Renumbered(rows, pipelineId, requested);
    forall n | 0 <= n < |requested|
      ensures Placed(rows, pipelineId, requested)[n] in after
    {
      var s := StageById(InPipeline(rows, pipelineId), requested[n]);
      var i :| 0 <= i < |rows| && rows[i] == s;
      IndexOfAt(requested, n);
      assert after[i] == s.(sortOrder := n + 1);
    }
  }

  lemma FullProgress(rows: seq<Stage>, pipelineId: string, requested: seq<string>, base: int)
    ensures Progress(rows, pipelineId, requested, base, |requested|, |requested|) == Renumbered(rows, pipelineId, requested)
  {
  }

  // ----- What the end state is worth -----

  /** Row by row: another pipeline's row is as it was, and a row of this one differs in its slot at
      most, which is the place its id has in the request. */
  ghost predicate InOrder(rows: seq<Stage>, pipelineId: string, requested: seq<string>, after: seq<Stage>) {
    && |after| == |rows|
    && forall i {:trigger after[i]} :: 0 <= i < |rows| ==>
      if rows[i].pipelineId != pipelineId then after[i] == rows[i]
      else
        && after[i] == rows[i].(sortOrder := after[i].sortOrder)
        && 1 <= after[i].sortOrder <= |requested| && requested[after[i].sortOrder - 1] == rows[i].id
  }

  /** Slots are exactly 1..N in the requested order; nothing but `sortOrder` changes, and only
      in this pipeline; the index still holds. */
  lemma RenumberedIsDense(rows: seq<Stage>, pipelineId: string, requested: seq<string>)
    requires UniqueIds(rows) && UniqueSlots(rows) && Distinct(requested)
    requires Covers(requested, InPipeline(rows, pipelineId))
    ensures UniqueSlots(Renumbered(rows, pipelineId, requested))
    ensures InOrder(rows, pipelineId, requested, Renumbered(rows, pipelineId, requested))
  {
    RenumberedKeepsIndex(rows, pipelineId, requested);
    forall i | 0 <= i < |rows|
      ensures var t := Renumbered(rows, pipelineId, requested)[i];
        && t == rows[i].(sortOrder := t.sortOrder)
        && (rows[i].pipelineId != pipelineId ==> t == rows[i])
        && (rows[i].pipelineId == pipelineId ==> 1 <= t.sortOrder <= |requested| && requested[t.sortOrder - 1] == rows[i].id)
    {
      NumberedRow(rows[i], pipelineId, requested);
    }
  }

  lemma RenumberedKeepsIndex(rows: seq<Stage>, pipelineId: string, requested: seq<string>)
    requires UniqueIds(rows) && UniqueSlots(rows) && Distinct(requested)
    requires Covers(requested, InPipeline(rows, pipelineId))
    ensures UniqueSlots(Renumbered(rows, pipelineId, requested))
    ensures forall i :: 0 <= i < |rows| && rows[i].pipelineId == pipelineId ==> rows[i].id in requested
  {
    var base := Highest(InPipeline(rows, pipelineId)) + 1;
    CoveringIsPermutation(requested, InPipeline(rows, pipelineId));
    SlotsStayUnique(rows, pipelineId, requested, base, |requested|, |requested|);
    FullProgress(rows, pipelineId, requested, base);
    forall i | 0 <= i < |rows| && rows[i].pipelineId == pipelineId
      ensures rows[i].id in requested
    {
      assert rows[i] in InPipeline(rows, pipelineId);
    }
  }

  lemma NumberedRow(s: Stage, pipelineId: string, requested: seq<string>)
    requires s.pipelineId == pipelineId ==> s.id in requested
    ensures var t := Moved(s, pipelineId, requested, 0, |requested|, |requested|);
      && t == s.(sortOrder := t.sortOrder)
      && (s.pipelineId != pipelineId ==> t == s)
      && (s.pipelineId == pipelineId ==> 1 <= t.sortOrder <= |requested| && requested[t.sortOrder - 1] == s.id)
  {
  }

  /** The last reorder wins: what an earlier one did to the slots is forgotten. */
  lemma LastOrderWins(rows: seq<Stage>, pipelineId: string, first: seq<string>, second: seq<string>)
    requires Distinct(first) && Distinct(second)
    requires forall id :: id in first <==> id in second
    ensures Renumbered(Renumbered(rows, pipelineId, first), pipelineId, second) == Renumbered(rows, pipelineId, second)
  {
    var a := Renumbered(Renumbered(rows, pipelineId, first), pipelineId, second);
    var b := Renumbered(rows, pipelineId, second);
    forall i | 0 <= i < |rows|
      ensures a[i] == b[i]
    {
    }
  }

  /** The temporary slots need room above the highest stage: at the top of the column there is none. */
  lemma NoRoomAtTheTop(s: Stage)
    requires s.sortOrder == MAX_POSTGRES_INTEGER
    ensures Ready([s], s.pipelineId, [s.id], MAX_POSTGRES_INTEGER + 1)
    ensures Write([s], s.(sortOrder := MAX_POSTGRES_INTEGER + 1)) == OutOfRange
  {
    assert [s][0] == s;
    assert InPipeline([s], s.pipelineId) == [s];
  }

  // ----- Why two phases are needed -----

  /** Writing stages of the pipeline straight into their final slots, one row at a time. */
  function DirectWrites(rows: seq<Stage>, final: map<string, int>, order: seq<string>): Written
    requires forall id :: id in order ==> id in final
    decreases |order|
  {
    if |order| == 0 then Rows(rows)
    else if !Has(rows, order[0]) then NoRow
    else
      var w := Write(rows, StageById(rows, order[0]).(sortOrder := final[order[0]]));
      if w.Rows? then DirectWrites(w.rows, final, order[1..]) else w
  }

  /** Some stage of the same pipeline as `id` occupies `slot`. */
  ghost predicate Occupied(rows: seq<Stage>, id: string, slot: int) {
    exists i, j :: 0 <= i < |rows| && 0 <= j < |rows|
      && rows[i].id == id && rows[j].pipelineId == rows[i].pipelineId && rows[j].sortOrder == slot
  }

  /** When every final slot is occupied now, as in a permutation, direct writes either fail on
      the index or change nothing: no order of writes realises a non-identity permutation. */
  lemma {:induction false} DirectWritesNeverPermute(rows: seq<Stage>, final: map<string, int>, order: seq<string>)
    requires UniqueIds(rows)
    requires forall id :: id in order ==> id in final && Occupied(rows, id, final[id])
    requires DirectWrites(rows, final, order).Rows?
    ensures DirectWrites(rows, final, order).rows == rows
    decreases |order|
  {
    if |order| > 0 {
      var id := order[0];
      assert id in order && Occupied(rows, id, final[id]);
      DirectWriteStays(rows, id, final[id]);
      DirectWritesNeverPermute(rows, final, order[1..]);
    }
  }

  /** Moving one stage to an occupied slot: a collision, or the slot was its own. */
  lemma DirectWriteStays(rows: seq<Stage>, id: string, slot: int)
    requires UniqueIds(rows) && Has(rows, id) && Occupied(rows, id, slot)
    requires Write(rows, StageById(rows, id).(sortOrder := slot)).Rows?
    ensures Write(rows, StageById(rows, id).(sortOrder := slot)).rows == rows
  {
    var s := StageById(rows, id);
    var moved := s.(sortOrder := slot);
    var i, j :| 0 <= i < |rows| && 0 <= j < |rows|
      && rows[i].id == id && rows[j].pipelineId == rows[i].pipelineId && rows[j].sortOrder == slot;
    var n :| 0 <= n < |rows| && rows[n] == s;
    assert n == i;
    assert !Collide(moved, rows[j]);
    assert j == i && moved == s;
    OwnSlot(rows, s, i);
  }

  lemma OwnSlot(rows: seq<Stage>, s: Stage, i: nat)
    requires UniqueIds(rows) && i < |rows| && rows[i] == s
    ensures Replaced(rows, s) == rows
  {
  }
}
