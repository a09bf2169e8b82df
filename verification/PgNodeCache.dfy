/** The write-back row cache of the Postgres node store against an uncached table. */
module PgNodeCache {
  import opened Basics
  import opened Operations
  import opened NodeRows
  import N = NodeStores
  import P = Patches

  /** A row of treecrdt_nodes; a vector column may be NULL. */
  datatype PgRow = PgRow(parent: Option<NodeId>, key: Option<Bytes>, tombstone: bool,
                         lastChange: Option<Knowledge>, deletedAt: Option<Knowledge>)

  type Table = map<NodeId, PgRow>

  const BLANK_ROW: PgRow := PgRow(None, None, false, None, None)

  const RESET_TABLE: Table := map[ROOT := PgRow(None, Some([]), false, None, None)]

  function OrEmpty(k: Option<Knowledge>): Knowledge {
    if k.Some? then k.value else {}
  }

  // ----- the uncached table -----

  datatype Call =
    | EnsureCall(n: NodeId)
    | DetachCall(n: NodeId)
    | AttachCall(n: NodeId, parent: NodeId, key: Bytes)
    | TombstoneCall(n: NodeId, flag: bool)
    | LastChangeCall(n: NodeId, delta: Knowledge)
    | DeletedAtCall(n: NodeId, delta: Knowledge)
    | ResetCall

  function Present(t: Table, n: NodeId): Table {
    if n in t then t else t[n := BLANK_ROW]
  }

  /** What a node-store call does to a table that is written through. */
  function Write(t: Table, c: Call): Table {
    match c
    case EnsureCall(n) => Present(t, n)
    case DetachCall(n) => if n == ROOT then t else var u := Present(t, n); u[n := u[n].(parent := None, key := None)]
    case AttachCall(n, p, key) =>
      if n == ROOT then t
      else
        var u := Present(Present(t, n), p);
        u[n := u[n].(parent := Some(p), key := StoredKey(Postgres, p, key))]
    case TombstoneCall(n, flag) => var u := Present(t, n); u[n := u[n].(tombstone := flag)]
    case LastChangeCall(n, k) => var u := Present(t, n); u[n := u[n].(lastChange := Some(OrEmpty(u[n].lastChange) + k))]
    case DeletedAtCall(n, k) => var u := Present(t, n); u[n := u[n].(deletedAt := Some(OrEmpty(u[n].deletedAt) + k))]
    case ResetCall => RESET_TABLE
  }

  function WriteAll(t: Table, calls: seq<Call>): Table {
    if calls == [] then t else Write(WriteAll(t, calls[..|calls| - 1]), calls[|calls| - 1])
  }

  // ----- the cached store -----

  type Cache = map<NodeId, Option<PgRow>>

  /** What a reader sees: the table with the buffered last changes laid over it. */
  ghost function Overlay(table: Table, cache: Cache, pending: set<NodeId>): Table {
    map n | n in table ::
      if n in pending && n in cache && cache[n].Some?
      then table[n].(lastChange := cache[n].value.lastChange) else table[n]
  }

  /** A cached row equals the table's, except for a buffered last change; a cached absence is real. */
  ghost predicate Coherent(table: Table, cache: Cache, pending: set<NodeId>) {
    && (forall n | n in cache && cache[n].None? :: n !in table)
    && (forall n | n in cache && cache[n].Some? ::
          && n in table && cache[n].value == table[n].(lastChange := cache[n].value.lastChange)
          && (n !in pending ==> cache[n].value == table[n])
          && (n in pending && cache[n].value.lastChange.None? ==> table[n].lastChange.None?))
    && (forall n | n in pending :: n in cache && cache[n].Some?)
  }

  lemma OverlayRow(table: Table, cache: Cache, pending: set<NodeId>, n: NodeId)
    requires Coherent(table, cache, pending)
    ensures n in Overlay(table, cache, pending) <==> n in table
    ensures n in cache && cache[n].Some? ==> Overlay(table, cache, pending)[n] == cache[n].value
    ensures n in table && n !in cache ==> Overlay(table, cache, pending)[n] == table[n]
  {
  }

  /** A cached copy follows the row but keeps its buffered last change. */
  function Updated(cache: Cache, n: NodeId, row: PgRow): Cache {
    if n in cache && cache[n].Some? then cache[n := Some(row.(lastChange := cache[n].value.lastChange))] else cache
  }

  /** A row update that leaves last_change alone, applied to the table and to a cached copy. */
  lemma UpdateKeepsCoherence(table: Table, cache: Cache, pending: set<NodeId>, n: NodeId, row: PgRow)
    requires Coherent(table, cache, pending) && n in table && row.lastChange == table[n].lastChange
    ensures
      var table' := table[n := row];
      var cache' := Updated(cache, n, row);
      var view := Overlay(table, cache, pending);
      && Coherent(table', cache', pending)
      && Overlay(table', cache', pending) == view[n := row.(lastChange := view[n].lastChange)]
  {
    var table' := table[n := row];
    var cache' := Updated(cache, n, row);
    var view, view' := Overlay(table, cache, pending), Overlay(table', cache', pending);
    OverlayRow(table, cache, pending, n);
    assert view'.Keys == view.Keys;
    forall x | x in table ensures view'[x] == if x == n then row.(lastChange := view[n].lastChange) else view[x] { }
  }

  function Blanks(t: Table, referenced: set<NodeId>): Table {
    map n | n in referenced && n !in t :: BLANK_ROW
  }

  /** The rows of the referenced nodes as the table has them, blank ones for those it lacks. */
  function Loaded(t: Table, referenced: set<NodeId>): Table {
    map n | n in referenced :: if n in t then t[n] else BLANK_ROW
  }

  /** The cache after a preload. */
  function Recached(t: Table, cache: Cache, referenced: set<NodeId>): Cache {
    cache + map n | n in referenced :: Some(if n in t then t[n] else BLANK_ROW)
  }

  lemma PreloadedRow(table: Table, cache: Cache, referenced: set<NodeId>, n: NodeId)
    ensures n in table + Blanks(table, referenced) <==> n in table || n in referenced
    ensures n in table ==> (table + Blanks(table, referenced))[n] == table[n]
    ensures n in referenced && n !in table ==> (table + Blanks(table, referenced))[n] == BLANK_ROW
    ensures n in Recached(table, cache, referenced) <==> n in cache || n in referenced
    ensures n in referenced ==>
      Recached(table, cache, referenced)[n] == Some(if n in table then table[n] else BLANK_ROW)
    ensures n in cache && n !in referenced ==> Recached(table, cache, referenced)[n] == cache[n]
  {
  }

  /** Loading rows in bulk over whatever the cache held keeps it coherent. */
  lemma PreloadCoherent(table: Table, cache: Cache, pending: set<NodeId>, referenced: set<NodeId>)
    requires Coherent(table, cache, pending)
    ensures Coherent(table + Blanks(table, referenced), Recached(table, cache, referenced), pending)
  {
    hide Blanks, Recached;
    var table', cache' := table + Blanks(table, referenced), Recached(table, cache, referenced);
    forall n | n in cache'
      ensures cache'[n].None? ==> n !in table'
      ensures cache'[n].Some? ==>
        && n in table' && cache'[n].value == table'[n].(lastChange := cache'[n].value.lastChange)
        && (n !in pending ==> cache'[n].value == table'[n])
        && (n in pending && cache'[n].value.lastChange.None? ==> table'[n].lastChange.None?)
    {
      PreloadedRow(table, cache, referenced, n);
    }
    forall n | n in pending ensures n in cache' && cache'[n].Some? { PreloadedRow(table, cache, referenced, n); }
  }

  lemma PreloadOverlay(table: Table, cache: Cache, pending: set<NodeId>, referenced: set<NodeId>)
    requires Coherent(table, cache, pending)
    ensures Overlay(table + Blanks(table, referenced), Recached(table, cache, referenced), pending)
         == Overlay(table, cache, pending) + Loaded(table, referenced)
  {
    hide Blanks, Recached;
    var table', cache' := table + Blanks(table, referenced), Recached(table, cache, referenced);
    var view, view' := Overlay(table, cache, pending), Overlay(table', cache', pending);
    var all := view + Loaded(table, referenced);
    forall x: NodeId ensures (x in view' <==> x in all) && (x in view' ==> view'[x] == all[x]) {
      PreloadedRow(table, cache, referenced, x);
    }
    assert view'.Keys == all.Keys;
  }

  lemma LoadedExactly(view: Table, table: Table, referenced: set<NodeId>)
    requires view.Keys == table.Keys
    ensures view + Loaded(table, referenced) == view + Blanks(view, referenced)
       <==> forall n | n in referenced && n in table :: view[n] == table[n]
  {
    var a, b := view + Loaded(table, referenced), view + Blanks(view, referenced);
    assert a.Keys == b.Keys;
    if a == b {
      forall n | n in referenced && n in table ensures view[n] == table[n] { assert a[n] == b[n]; }
    }
  }

  /** A last change kept in the cache only. */
  lemma BufferKeepsCoherence(table: Table, cache: Cache, pending: set<NodeId>, n: NodeId, k: Knowledge)
    requires Coherent(table, cache, pending) && n in cache && cache[n].Some?
    ensures
      var row := cache[n].value.(lastChange := Some(k));
      && Coherent(table, cache[n := Some(row)], pending + {n})
      && Overlay(table, cache[n := Some(row)], pending + {n}) == Overlay(table, cache, pending)[n := row]
  {
    var row := cache[n].value.(lastChange := Some(k));
    var view, view' := Overlay(table, cache, pending), Overlay(table, cache[n := Some(row)], pending + {n});
    assert view'.Keys == view.Keys;
    forall x | x in table ensures view'[x] == if x == n then row else view[x] { }
  }

  class PgNodeStore {
    var table: Table
    var cache: Cache
    var pending: set<NodeId>

    ghost predicate Valid()
      reads this
    {
      Coherent(table, cache, pending)
    }

    ghost function View(): Table
      reads this
    {
      Overlay(table, cache, pending)
    }

    constructor (table: Table)
      ensures Valid() && View() == table && this.table == table && pending == {}
    {
      this.table := table;
      cache, pending := map[], {};
    }

    /** `node_row`: a miss loads the row and remembers it, present or not. */
    method NodeRow(n: NodeId) returns (row: Option<PgRow>)
      requires Valid()
      modifies this`cache
      ensures Valid() && View() == old(View())
      ensures row == if n in View() then Some(View()[n]) else None
      ensures n in cache && cache[n] == row
    {
      OverlayRow(table, cache, pending, n);
      if n in cache { return cache[n]; }
      row := if n in table then Some(table[n]) else None;
      cache := cache[n := row];
      assert View() == old(View());
    }

    method EnsureNode(n: NodeId)
      requires Valid()
      modifies this
      ensures Valid() && View() == Present(old(View()), n) && n in table
    {
      if n in cache && cache[n].Some? { return; }
      if n !in table {
        table := table[n := BLANK_ROW];
        cache := cache[n := Some(BLANK_ROW)];
      }
      assert View() == Present(old(View()), n);
    }

    /** Update a row in the table, and in the cache if it is there. */
    method UpdateRow(n: NodeId, row: PgRow)
      requires Valid() && n in table && row.lastChange == table[n].lastChange
      modifies this`table, this`cache
      ensures Valid() && View() == old(View())[n := row.(lastChange := old(View())[n].lastChange)]
    {
      hide Coherent, Overlay;
      UpdateKeepsCoherence(table, cache, pending, n, row);
      OverlayRow(table, cache, pending, n);
      table := table[n := row];
      if n in cache && cache[n].Some? { cache := cache[n := Some(row.(lastChange := cache[n].value.lastChange))]; }
    }

    method Detach(n: NodeId)
      requires Valid()
      modifies this
      ensures Valid() && View() == Write(old(View()), DetachCall(n))
    {
      if n == ROOT { return; }
      EnsureNode(n);
      OverlayRow(table, cache, pending, n);
      UpdateRow(n, table[n].(parent := None, key := None));
    }

    method Attach(n: NodeId, parent: NodeId, key: Bytes)
      requires Valid()
      modifies this
      ensures Valid() && View() == Write(old(View()), AttachCall(n, parent, key))
    {
      if n == ROOT { return; }
      EnsureNode(n);
      EnsureNode(parent);
      OverlayRow(table, cache, pending, n);
      assert n in View();
      if parent == TRASH {
        UpdateRow(n, table[n].(parent := Some(parent), key := None));
      } else {
        UpdateRow(n, table[n].(parent := Some(parent), key := Some(key)));
      }
    }

    method SetTombstone(n: NodeId, flag: bool)
      requires Valid()
      modifies this
      ensures Valid() && View() == Write(old(View()), TombstoneCall(n, flag))
    {
      EnsureNode(n);
      OverlayRow(table, cache, pending, n);
      UpdateRow(n, table[n].(tombstone := flag));
    }

    /** Only the cache is written; the table follows at the flush. */
    method MergeLastChange(n: NodeId, delta: Knowledge)
      requires Valid()
      modifies this
      ensures Valid() && View() == Write(old(View()), LastChangeCall(n, delta))
    {
      EnsureNode(n);
      hide Coherent, Overlay;
      OverlayRow(table, cache, pending, n);
      var row := NodeRow(n);
      BufferKeepsCoherence(table, cache, pending, n, OrEmpty(row.value.lastChange) + delta);
      cache := cache[n := Some(row.value.(lastChange := Some(OrEmpty(row.value.lastChange) + delta)))];
      pending := pending + {n};
    }

    method MergeDeletedAt(n: NodeId, delta: Knowledge)
      requires Valid()
      modifies this
      ensures Valid() && View() == Write(old(View()), DeletedAtCall(n, delta))
    {
      EnsureNode(n);
      OverlayRow(table, cache, pending, n);
      var row := NodeRow(n);
      UpdateRow(n, table[n].(deletedAt := Some(OrEmpty(row.value.deletedAt) + delta)));
    }

    method Reset()
      modifies this
      ensures Valid() && View() == RESET_TABLE
    {
      pending := {};
      table := RESET_TABLE;
      cache := map[ROOT := Some(RESET_TABLE[ROOT])];
      assert View() == RESET_TABLE;
    }

    /** Children are always read from the table, where parents and keys are never stale, and come
        ordered by order key and id. */
    method Children(p: NodeId) returns (s: seq<NodeId>)
      requires Valid()
      ensures p == TRASH ==> s == []
      ensures p != TRASH ==> N.IsChildList(RowsOf(View()), p, s)
    {
      s := [];
      if p == TRASH { return; }
      ghost var m := RowsOf(table);
      var todo := table.Keys;
      while todo != {}
        invariant todo <= table.Keys && N.SortedSiblings(m, s)
        invariant forall n: NodeId :: n in s <==> n in table && n !in todo && table[n].parent == Some(p)
      {
        var n :| n in todo;
        if table[n].parent == Some(p) {
          var i := Place(s, n);
          if i > 0 { N.BeforeTotal(N.SiblingKey(m, n), n, N.SiblingKey(m, s[i - 1]), s[i - 1]); }
          N.InsertAtSorted(m, s, i, n);
          assert s == s[..i] + s[i..];
          s := s[..i] + [n] + s[i..];
        }
        todo := todo - {n};
      }
      N.SameChildList(m, RowsOf(View()), p, s);
    }

    /** The first place in a sorted list whose row comes after n. */
    method Place(s: seq<NodeId>, n: NodeId) returns (i: nat)
      requires n in table && n !in s && forall c | c in s :: c in table
      ensures i <= |s|
      ensures i > 0 ==> !N.SiblingLess(RowsOf(table), n, s[i - 1])
      ensures i < |s| ==> N.SiblingLess(RowsOf(table), n, s[i])
    {
      i := 0;
      while i < |s| && !N.SiblingLess(RowsOf(table), n, s[i])
        invariant i <= |s| && (i > 0 ==> !N.SiblingLess(RowsOf(table), n, s[i - 1]))
      {
        i := i + 1;
      }
    }

    /** `preload_for_ops`: load or create the rows of the referenced nodes in bulk. It overwrites
        cached rows, so a buffered last change of a referenced node is forgotten; the view gains
        just the missing rows exactly when there is none. */
    method Preload(referenced: set<NodeId>)
      requires Valid()
      modifies this
      ensures Valid() && pending == old(pending)
      ensures View() == old(View()) + Loaded(old(table), referenced)
      ensures View() == old(View()) + Blanks(old(View()), referenced)
         <==> forall n | n in referenced && n in old(table) :: old(View())[n] == old(table)[n]
    {
      PreloadCoherent(table, cache, pending, referenced);
      PreloadOverlay(table, cache, pending, referenced);
      LoadedExactly(View(), table, referenced);
      hide Coherent, Overlay, Blanks, Loaded, Recached;
      cache := Recached(table, cache, referenced);
      table := table + Blanks(table, referenced);
    }

    /** Write the buffered last changes to the table in one go. */
    method FlushLastChange()
      requires Valid()
      modifies this
      ensures Valid() && View() == old(View()) && table == old(View()) && pending == {}
    {
      ghost var view := View();
      var todo := pending;
      pending := {};
      ghost var start := table;
      while todo != {}
        invariant todo <= old(pending) && pending == {} && cache == old(cache) && table.Keys == start.Keys
        invariant forall n | n in table :: table[n] == if n in old(pending) && n !in todo then view[n] else start[n]
      {
        var n :| n in todo;
        if n in cache && cache[n].Some? && cache[n].value.lastChange.Some? && n in table {
          table := table[n := table[n].(lastChange := cache[n].value.lastChange)];
        }
        todo := todo - {n};
      }
      assert table == view;
    }

    method Perform(c: Call)
      requires Valid()
      modifies this
      ensures Valid() && View() == Write(old(View()), c)
    {
      match c
      case EnsureCall(n) => EnsureNode(n);
      case DetachCall(n) => Detach(n);
      case AttachCall(n, p, key) => Attach(n, p, key);
      case TombstoneCall(n, flag) => SetTombstone(n, flag);
      case LastChangeCall(n, k) => MergeLastChange(n, k);
      case DeletedAtCall(n, k) => MergeDeletedAt(n, k);
      case ResetCall => Reset();
    }

    /** For every sequence of calls, interleaved with reads of any nodes, every read answers as the
        uncached table would, and the flushed table is that table, with nothing pending. */
    method PerformAll(calls: seq<Call>, queries: seq<NodeId>) returns (answers: seq<Option<PgRow>>)
      requires Valid() && |queries| == |calls|
      modifies this
      ensures Valid() && |answers| == |calls|
      ensures forall i | 0 <= i < |calls| ::
        var t := WriteAll(old(View()), calls[..i + 1]);
        answers[i] == if queries[i] in t then Some(t[queries[i]]) else None
      ensures View() == WriteAll(old(View()), calls) && table == View() && pending == {}
    {
      answers := [];
      ghost var start := View();
      for i := 0 to |calls|
        invariant Valid() && |answers| == i && View() == WriteAll(start, calls[..i])
        invariant forall j | 0 <= j < i ::
          var t := WriteAll(start, calls[..j + 1]);
          answers[j] == if queries[j] in t then Some(t[queries[j]]) else None
      {
        assert calls[..i + 1][..i] == calls[..i];
        Perform(calls[i]);
        var row := NodeRow(queries[i]);
        answers := answers + [row];
      }
      assert calls[..|calls|] == calls;
      FlushLastChange();
    }
  }

  // ----- the table as a node store -----

  function RowOf(r: PgRow): Row {
    Row(r.parent, r.key, OrEmpty(r.lastChange), r.deletedAt)
  }

  function RowsOf(t: Table): Rows {
    map n | n in t :: RowOf(t[n])
  }

  function TombsOf(t: Table): set<NodeId> {
    set n | n in t && t[n].tombstone
  }

  /** Calls the engine makes: nodes are ensured before they are linked or merged into, and detached
      before they are attached. */
  predicate EngineCall(t: Table, c: Call) {
    match c
    case EnsureCall(_) => true
    case DetachCall(n) => n == ROOT || n in t
    case AttachCall(n, p, _) => n == ROOT || (n in t && p in t && t[n].parent.None? && (n != p || p == TRASH))
    case TombstoneCall(n, _) => n in t
    case LastChangeCall(n, _) => n in t
    case DeletedAtCall(n, _) => n in t
    case ResetCall => true
  }

  /** A row without parent has no key, ROOT's aside. */
  predicate KeyedByParent(t: Table) {
    forall n | n in t && n != ROOT :: t[n].parent.None? ==> t[n].key.None?
  }

  /** What the engine's node store does to rows and flags. */
  function StoreRows(m: Rows, c: Call): Rows {
    match c
    case EnsureCall(n) => Ensure(m, n)
    case DetachCall(n) => Detach(Postgres, m, n)
    case AttachCall(n, p, key) => Attach(Postgres, m, n, p, key)
    case TombstoneCall(_, _) => m
    case LastChangeCall(n, k) => Touch(m, n, k)
    case DeletedAtCall(n, k) => MergeDeletedAt(m, n, k)
    case ResetCall => map[ROOT := ROOT_ROW]
  }

  function StoreTombs(tombs: set<NodeId>, c: Call): set<NodeId> {
    match c
    case TombstoneCall(n, flag) => if flag then tombs + {n} else tombs - {n}
    case ResetCall => {}
    case _ => tombs
  }

  /** One table write is the node store's operation in the Postgres dialect. */
  lemma TableIsNodeStore(t: Table, c: Call)
    requires EngineCall(t, c) && KeyedByParent(t)
    ensures RowsOf(Write(t, c)) == StoreRows(RowsOf(t), c) && TombsOf(Write(t, c)) == StoreTombs(TombsOf(t), c)
    ensures KeyedByParent(Write(t, c))
  {
    match c
    case EnsureCall(n) => PresentRows(t, n);
    case DetachCall(n) => if n != ROOT { UpdateRows(t, n, Write(t, c)[n]); }
    case AttachCall(n, p, key) => if n != ROOT { UpdateRows(t, n, Write(t, c)[n]); }
    case TombstoneCall(n, flag) => UpdateRows(t, n, Write(t, c)[n]);
    case LastChangeCall(n, k) => UpdateRows(t, n, Write(t, c)[n]);
    case DeletedAtCall(n, k) => UpdateRows(t, n, Write(t, c)[n]);
    case ResetCall => UpdateRows(map[], ROOT, RESET_TABLE[ROOT]);
  }

  predicate EngineRun(t: Table, calls: seq<Call>) {
    calls == [] ||
    (EngineRun(t, calls[..|calls| - 1]) && EngineCall(WriteAll(t, calls[..|calls| - 1]), calls[|calls| - 1]))
  }

  function StoreRowsAll(m: Rows, calls: seq<Call>): Rows {
    if calls == [] then m else StoreRows(StoreRowsAll(m, calls[..|calls| - 1]), calls[|calls| - 1])
  }

  function StoreTombsAll(tombs: set<NodeId>, calls: seq<Call>): set<NodeId> {
    if calls == [] then tombs else StoreTombs(StoreTombsAll(tombs, calls[..|calls| - 1]), calls[|calls| - 1])
  }

  /** The placeholder rows of a preload are those of the pipeline model. */
  lemma BlanksArePatches(t: Table, referenced: set<NodeId>)
    ensures RowsOf(t + Blanks(t, referenced)) == P.Patched(RowsOf(t), referenced, false)
    ensures TombsOf(t + Blanks(t, referenced)) == TombsOf(t)
  {
  }

  /** For every sequence of engine calls the table ends with the node store's rows and flags. */
  lemma {:induction false} TableRunIsNodeStore(t: Table, calls: seq<Call>)
    requires EngineRun(t, calls) && KeyedByParent(t)
    ensures RowsOf(WriteAll(t, calls)) == StoreRowsAll(RowsOf(t), calls)
    ensures TombsOf(WriteAll(t, calls)) == StoreTombsAll(TombsOf(t), calls)
    ensures KeyedByParent(WriteAll(t, calls))
  {
    hide Write, EngineCall, KeyedByParent, StoreRows, StoreTombs;
    if calls != [] {
      TableRunIsNodeStore(t, calls[..|calls| - 1]);
      TableIsNodeStore(WriteAll(t, calls[..|calls| - 1]), calls[|calls| - 1]);
    }
  }

  method PerformOn(store: N.NodeStore, c: Call, ghost t: Table)
    requires store.Valid() && store.dialect == Postgres && EngineCall(t, c)
    requires store.Rows() == RowsOf(t)
    modifies store
    ensures store.Valid() && store.Rows() == StoreRows(old(store.Rows()), c)
    ensures store.Tombs() == StoreTombs(old(store.Tombs()), c)
  {
    match c
    case EnsureCall(n) => store.EnsureNode(n);
    case DetachCall(n) => store.Detach(n);
    case AttachCall(n, p, key) => store.Attach(n, p, key);
    case TombstoneCall(n, flag) => store.SetTombstone(n, flag);
    case LastChangeCall(n, k) => store.MergeLastChange(n, k);
    case DeletedAtCall(n, k) => store.MergeDeletedAt(n, k);
    case ResetCall => store.Reset();
  }

  /** The cached Postgres store and the engine's node store, driven by the same calls from equal
      contents: after the flush the table holds the store's rows and flags, with nothing pending,
      and equal child lists. */
  method RunBoth(pg: PgNodeStore, store: N.NodeStore, calls: seq<Call>)
    requires pg.Valid() && store.Valid() && store.dialect == Postgres && KeyedByParent(pg.View())
    requires store.Rows() == RowsOf(pg.View()) && store.Tombs() == TombsOf(pg.View())
    requires EngineRun(pg.View(), calls)
    modifies pg, store
    ensures pg.Valid() && store.Valid() && pg.pending == {} && pg.table == WriteAll(old(pg.View()), calls)
    ensures RowsOf(pg.table) == store.Rows() && TombsOf(pg.table) == store.Tombs()
    ensures forall p, s | p in store.nodes && p != TRASH && N.IsChildList(RowsOf(pg.table), p, s) ::
      s == store.nodes[p].children
  {
    hide Write, EngineCall, KeyedByParent, StoreRows, StoreTombs;
    ghost var start := pg.View();
    for i := 0 to |calls|
      invariant pg.Valid() && store.Valid() && pg.View() == WriteAll(start, calls[..i])
      invariant store.Rows() == RowsOf(pg.View()) && store.Tombs() == TombsOf(pg.View()) && KeyedByParent(pg.View())
    {
      EngineRunPrefix(start, calls, i);
      assert calls[..i + 1][..i] == calls[..i];
      TableIsNodeStore(WriteAll(start, calls[..i]), calls[i]);
      PerformOn(store, calls[i], pg.View());
      pg.Perform(calls[i]);
    }
    assert calls[..|calls|] == calls;
    pg.FlushLastChange();
    forall p, s | p in store.nodes && p != TRASH && N.IsChildList(RowsOf(pg.table), p, s)
      ensures s == store.nodes[p].children
    {
      N.ChildListUnique(store.Rows(), p, s, store.nodes[p].children);
    }
  }

  lemma {:induction false} EngineRunPrefix(t: Table, calls: seq<Call>, i: nat)
    requires EngineRun(t, calls) && i < |calls|
    ensures EngineRun(t, calls[..i + 1]) && EngineCall(WriteAll(t, calls[..i]), calls[i])
    decreases |calls|
  {
    if i + 1 < |calls| {
      EngineRunPrefix(t, calls[..|calls| - 1], i);
      assert calls[..|calls| - 1][..i + 1] == calls[..i + 1] && calls[..|calls| - 1][..i] == calls[..i];
    } else {
      assert calls[..i + 1] == calls && calls[..i] == calls[..|calls| - 1];
    }
  }

  lemma UpdateRows(t: Table, n: NodeId, r: PgRow)
    ensures RowsOf(t[n := r]) == RowsOf(t)[n := RowOf(r)] && RowsOf(t).Keys == t.Keys
    ensures TombsOf(t[n := r]) == if r.tombstone then TombsOf(t) + {n} else TombsOf(t) - {n}
    ensures n in t ==> RowsOf(t)[n] == RowOf(t[n]) && (n in TombsOf(t) <==> t[n].tombstone)
  {
  }

  lemma PresentRows(t: Table, n: NodeId)
    ensures RowsOf(Present(t, n)) == Ensure(RowsOf(t), n) && TombsOf(Present(t, n)) == TombsOf(t)
  {
    UpdateRows(t, n, BLANK_ROW);
  }
}
