/**
  The copy-on-write document-sharing scope: one writer keeps changing the
  nodes while a forked reader (layout) keeps seeing them as they were when
  it was forked.

  Every handle has a reader view (`readPtr`) and a writer view (`writePtr`).
  Both are ids of value cells in `cells`, the memory the scope allocates, so
  the Rust code's pointer comparison `read_ptr == write_ptr` is a comparison of
  cell ids here. Handles are indices into the per-handle sequences; a handle
  is valid for this scope when it is below `|freeList|`.
*/
module Cow {
  import opened Wrappers
  import opened DirtyList

  /** The id of one allocated copy of a node's value. */
  type Cell = nat

  /** No cell belongs to two handles. */
  ghost predicate CellsDisjoint(readPtr: seq<Cell>, writePtr: seq<Cell>)
    requires |readPtr| == |writePtr|
  {
    forall h, g :: 0 <= h < |readPtr| && 0 <= g < |readPtr| && h != g ==>
      readPtr[h] != readPtr[g] && readPtr[h] != writePtr[g] && writePtr[h] != writePtr[g]
  }

  /** The invariant of the handle pool: every view is an allocated cell, no
      cell is shared between handles, and the dirty list `dirty` (reached
      from `first` along `next`) holds exactly the handles whose views
      diverge; every other handle has a null link. */
  ghost predicate Pool<T>(readPtr: seq<Cell>, writePtr: seq<Cell>, next: seq<Option<Handle>>,
                          cells: map<Cell, T>, nextCell: Cell, first: Option<Handle>, dirty: seq<Handle>)
  {
    && |writePtr| == |readPtr| && |next| == |readPtr|
    && (forall h :: 0 <= h < |readPtr| ==> readPtr[h] in cells && writePtr[h] in cells)
    && (forall c :: c in cells ==> c < nextCell)
    && CellsDisjoint(readPtr, writePtr)
    && Chain(next, first, dirty)
    && (forall h :: 0 <= h < |readPtr| ==> (h in dirty <==> readPtr[h] != writePtr[h]))
    && (forall h :: 0 <= h < |readPtr| && h !in dirty ==> next[h] == None)
  }

  /** In a pool, the dirty list holds each handle at most once, only valid
      handles, all of them diverged; the links alone determine it, and its
      head is null exactly when it is empty. */
  lemma PoolDirtyExact<T>(r: seq<Cell>, w: seq<Cell>, nd: seq<Option<Handle>>, cells: map<Cell, T>,
                          nextCell: Cell, first: Option<Handle>, d: seq<Handle>)
    requires Pool(r, w, nd, cells, nextCell, first, d)
    ensures Distinct(d)
    ensures forall i :: 0 <= i < |d| ==> d[i] < |r| && r[d[i]] != w[d[i]]
    ensures forall d' :: Chain(nd, first, d') ==> d' == d
    ensures first == None <==> d == []
  {
    ChainDistinct(nd, first, d);
    forall d' | Chain(nd, first, d') ensures d' == d {
      ChainUnique(nd, first, d', d);
    }
  }

  /** Cloning a shared handle's value into a fresh cell and pushing the
      handle on the dirty list keeps the pool invariant. */
  lemma PoolClone<T>(r: seq<Cell>, w: seq<Cell>, nd: seq<Option<Handle>>, cells: map<Cell, T>,
                     nextCell: Cell, first: Option<Handle>, d: seq<Handle>, h: Handle)
    requires Pool(r, w, nd, cells, nextCell, first, d)
    requires h < |r| && r[h] == w[h]
    ensures Pool(r, w[h := nextCell], nd[h := first], cells[nextCell := cells[r[h]]], nextCell + 1, Some(h), [h] + d)
  {
    assert h !in d;
    ChainPush(nd, first, d, h);
  }

  /** Storing a new value in a handle's writer cell keeps the pool invariant. */
  lemma PoolStore<T>(r: seq<Cell>, w: seq<Cell>, nd: seq<Option<Handle>>, cells: map<Cell, T>,
                     nextCell: Cell, first: Option<Handle>, d: seq<Handle>, h: Handle, v: T)
    requires Pool(r, w, nd, cells, nextCell, first, d)
    requires h < |r|
    ensures Pool(r, w, nd, cells[w[h] := v], nextCell, first, d)
  {
  }

  /** Allocating a new shared, clean handle keeps the pool invariant. */
  lemma PoolAlloc<T>(r: seq<Cell>, w: seq<Cell>, nd: seq<Option<Handle>>, cells: map<Cell, T>,
                     nextCell: Cell, first: Option<Handle>, d: seq<Handle>, v: T)
    requires Pool(r, w, nd, cells, nextCell, first, d)
    ensures Pool(r + [nextCell], w + [nextCell], nd + [None], cells[nextCell := v], nextCell + 1, first, d)
  {
    ChainFrame(nd, nd + [None], first, d);
  }

  /** The state of `reader_joined`'s walk after `k` handles of the dirty list
      `d`: those are synchronised and unlinked and their stale reader copies
      discarded; the rest of the pool is as it was (`r0`, `nd0`, `c0`). */
  ghost predicate Joining<T>(d: seq<Handle>, r0: seq<Cell>, nd0: seq<Option<Handle>>, c0: map<Cell, T>,
                             w: seq<Cell>, k: nat, r: seq<Cell>, nd: seq<Option<Handle>>, cells: map<Cell, T>)
  {
    && k <= |d| && |r| == |r0| && |nd| == |r0| && |w| == |r0| && |nd0| == |r0|
    && (forall i :: 0 <= i < |d| ==> d[i] < |r0|)
    && (forall i :: 0 <= i < k ==> r[d[i]] == w[d[i]] && nd[d[i]] == None && r0[d[i]] !in cells)
    && (forall i :: k <= i < |d| ==> r[d[i]] == r0[d[i]] && nd[d[i]] == nd0[d[i]])
    && (forall h :: 0 <= h < |r0| && h !in d ==> r[h] == r0[h] && nd[h] == nd0[h])
    && (forall h :: 0 <= h < |r0| ==> r[h] == r0[h] || r[h] == w[h])
    && (forall c :: c in cells ==> c in c0 && cells[c] == c0[c])
    && (forall h :: 0 <= h < |r0| ==> r[h] in cells && w[h] in cells)
  }

  /** One iteration of the walk keeps `Joining`. */
  lemma JoinStep<T>(d: seq<Handle>, r0: seq<Cell>, nd0: seq<Option<Handle>>, c0: map<Cell, T>,
                    w: seq<Cell>, k: nat, r: seq<Cell>, nd: seq<Option<Handle>>, cells: map<Cell, T>)
    requires Joining(d, r0, nd0, c0, w, k, r, nd, cells)
    requires Distinct(d) && CellsDisjoint(r0, w) && k < |d|
    requires forall h :: 0 <= h < |r0| ==> (h in d <==> r0[h] != w[h])
    ensures Joining(d, r0, nd0, c0, w, k + 1, r[d[k] := w[d[k]]], nd[d[k] := None], cells - {r0[d[k]]})
  {
    var x := d[k];
    var r', nd', cells' := r[x := w[x]], nd[x := None], cells - {r0[x]};
    assert r0[x] != w[x];
    forall g | 0 <= g < |r'| ensures r'[g] in cells' && w[g] in cells' {
      if g != x {
        assert r0[g] != r0[x] && w[g] != r0[x];
      }
    }
    forall i | 0 <= i < k + 1 ensures r'[d[i]] == w[d[i]] && nd'[d[i]] == None && r0[d[i]] !in cells' {
      if i < k {
        assert d[i] != x;
      }
    }
    forall i | k + 1 <= i < |d| ensures r'[d[i]] == r0[d[i]] && nd'[d[i]] == nd0[d[i]] {
      assert d[i] != x;
    }
  }

  /** At the end of the walk every view agrees, no link is left, and the
      pool invariant holds with an empty dirty list. */
  lemma JoinEnd<T>(d: seq<Handle>, r0: seq<Cell>, nd0: seq<Option<Handle>>, c0: map<Cell, T>, first0: Option<Handle>,
                   w: seq<Cell>, r: seq<Cell>, nd: seq<Option<Handle>>, cells: map<Cell, T>, nextCell: Cell)
    requires Pool(r0, w, nd0, c0, nextCell, first0, d)
    requires Joining(d, r0, nd0, c0, w, |d|, r, nd, cells)
    ensures Pool(r, w, nd, cells, nextCell, None, [])
    ensures forall h :: 0 <= h < |r| ==> r[h] == w[h] && nd[h] == None && cells[w[h]] == c0[w[h]]
    ensures forall h :: 0 <= h < |r| ==> (h !in d ==> r[h] == r0[h]) && (h in d ==> r0[h] !in cells)
  {
    forall h | 0 <= h < |r| ensures r[h] == w[h] && nd[h] == None && (h in d ==> r0[h] !in cells) {
      if h in d {
        var i :| 0 <= i < |d| && d[i] == h;
      }
    }
  }

  class Scope<T, A> {
    /** True between `ReaderForked` and `ReaderJoined`. */
    var layoutActive: bool
    /** Every handle this scope created, in creation order; all are freed with the scope. */
    var freeList: seq<Handle>
    /** Head of the intrusive dirty list. */
    var firstDirty: Option<Handle>

    // Per-handle data (HandleData), indexed by handle.
    var readPtr: seq<Cell>
    var writePtr: seq<Cell>
    var readAux: seq<Option<A>>
    var nextDirty: seq<Option<Handle>>

    /** The allocated copies; `nextCell` is the next fresh id. */
    var cells: map<Cell, T>
    var nextCell: Cell

    /** The dirty list, as reached from `firstDirty` along `nextDirty`. */
    ghost var Dirty: seq<Handle>

    ghost predicate Valid()
      reads this
    {
      && |readPtr| == |freeList| && |readAux| == |freeList|
      && (forall i :: 0 <= i < |freeList| ==> freeList[i] == i)
      && Pool(readPtr, writePtr, nextDirty, cells, nextCell, firstDirty, Dirty)
      // divergence only happens while a reader is forked
      && (!layoutActive ==> Dirty == [])
    }

    /** The value the reader sees. */
    ghost function ReaderView(h: Handle): T
      reads this
      requires h < |readPtr| && readPtr[h] in cells
    {
      cells[readPtr[h]]
    }

    /** The value the writer sees, always the latest one. */
    ghost function WriterView(h: Handle): T
      reads this
      requires h < |writePtr| && writePtr[h] in cells
    {
      cells[writePtr[h]]
    }

    /** The writer has its own copy of the node. */
    ghost predicate Diverged(h: Handle)
      reads this
      requires h < |readPtr| && h < |writePtr|
    {
      readPtr[h] != writePtr[h]
    }

    /** The dirty list holds exactly the diverged handles, each once; it is
        the list the links reach from `firstDirty`, and it is empty unless a
        reader is forked. */
    lemma DirtyListExact()
      requires Valid()
      ensures forall h: Handle :: h < |freeList| ==> (h in Dirty <==> Diverged(h))
      ensures Distinct(Dirty)
      ensures forall d :: Chain(nextDirty, firstDirty, d) ==> d == Dirty
      ensures !layoutActive ==> Dirty == [] && firstDirty == None
    {
      PoolDirtyExact(readPtr, writePtr, nextDirty, cells, nextCell, firstDirty, Dirty);
    }

    constructor ()
      ensures Valid()
      ensures !layoutActive && freeList == [] && firstDirty == None && Dirty == []
    {
      layoutActive := false;
      freeList := [];
      firstDirty := None;
      readPtr, writePtr, readAux, nextDirty := [], [], [], [];
      cells, nextCell := map[], 0;
      Dirty := [];
    }

    method IsReaderForked() returns (forked: bool)
      requires Valid()
      ensures forked == layoutActive
      ensures !forked ==> Dirty == [] && forall h: Handle :: h < |freeList| ==> !Diverged(h)
    {
      forked := layoutActive;
    }

    method ReaderForked()
      requires Valid() && !layoutActive && firstDirty == None
      modifies this`layoutActive
      ensures Valid() && layoutActive
    {
      layoutActive := true;
    }

    /** A new node whose two views are one cell holding `v`. */
    method NewHandle(v: T) returns (h: Handle)
      requires Valid()
      modifies this`freeList, this`readPtr, this`writePtr, this`readAux, this`nextDirty, this`cells, this`nextCell
      ensures Valid()
      ensures h == |old(freeList)| && freeList == old(freeList) + [h]
      ensures ReaderView(h) == v && WriterView(h) == v && !Diverged(h)
      ensures readAux[h] == None && nextDirty[h] == None && h !in Dirty
      ensures layoutActive == old(layoutActive) && Dirty == old(Dirty) && firstDirty == old(firstDirty)
      ensures forall g: Handle :: g < h ==>
        && ReaderView(g) == old(ReaderView(g)) && WriterView(g) == old(WriterView(g))
        && Diverged(g) == old(Diverged(g)) && readAux[g] == old(readAux[g])
    {
      PoolAlloc(readPtr, writePtr, nextDirty, cells, nextCell, firstDirty, Dirty, v);
      var c := nextCell;
      nextCell := nextCell + 1;
      cells := cells[c := v];
      h := |freeList|;
      readPtr := readPtr + [c];
      writePtr := writePtr + [c];
      readAux := readAux + [None];
      nextDirty := nextDirty + [None];
      freeList := freeList + [h];
    }

    /** The writer's update: the first write to a shared handle while a reader
        is forked gives the writer its own copy and marks the handle dirty. */
    method Write(h: Handle, f: T -> T)
      requires Valid() && h < |freeList|
      modifies this`writePtr, this`nextDirty, this`firstDirty, this`cells, this`nextCell, this`Dirty
      ensures Valid()
      ensures WriterView(h) == f(old(WriterView(h)))
      ensures ReaderView(h) == if layoutActive then old(ReaderView(h)) else WriterView(h)
      ensures forall g: Handle :: g < |freeList| && g != h ==>
        ReaderView(g) == old(ReaderView(g)) && WriterView(g) == old(WriterView(g))
      ensures layoutActive && !old(Diverged(h)) ==>
        && writePtr[h] !in old(cells) && readPtr[h] == old(readPtr[h])
        && Dirty == [h] + old(Dirty) && firstDirty == Some(h) && nextDirty[h] == old(firstDirty)
      ensures !layoutActive || old(Diverged(h)) ==>
        && writePtr == old(writePtr) && Dirty == old(Dirty)
        && firstDirty == old(firstDirty) && nextDirty == old(nextDirty)
    {
      if layoutActive && readPtr[h] == writePtr[h] {
        // clone the reader value into a fresh cell
        PoolClone(readPtr, writePtr, nextDirty, cells, nextCell, firstDirty, Dirty, h);
        var c := nextCell;
        nextCell := nextCell + 1;
        cells := cells[c := cells[readPtr[h]]];
        writePtr := writePtr[h := c];
        nextDirty := nextDirty[h := firstDirty];
        firstDirty := Some(h);
        Dirty := [h] + Dirty;
      }
      PoolStore(readPtr, writePtr, nextDirty, cells, nextCell, firstDirty, Dirty, h, f(cells[writePtr[h]]));
      cells := cells[writePtr[h] := f(cells[writePtr[h]])];
    }

    /** Ends the fork: every handle on the dirty list gets the writer's copy
        as its reader view, and the list is emptied. */
    method ReaderJoined()
      requires Valid() && layoutActive
      modifies this`readPtr, this`nextDirty, this`firstDirty, this`cells, this`layoutActive, this`Dirty
      ensures Valid() && !layoutActive && Dirty == [] && firstDirty == None
      ensures forall h: Handle :: h < |freeList| ==>
        ReaderView(h) == old(WriterView(h)) && WriterView(h) == old(WriterView(h))
      ensures forall h: Handle :: h < |freeList| ==> !Diverged(h) && nextDirty[h] == None
      ensures forall h: Handle :: h < |freeList| && h !in old(Dirty) ==> readPtr[h] == old(readPtr[h])
      ensures forall h: Handle :: h < |freeList| && h in old(Dirty) ==> old(readPtr[h]) !in cells
    {
      if firstDirty.Some? {
        SyncDirty();
        firstDirty := None;
      }
      JoinEnd(old(Dirty), old(readPtr), old(nextDirty), old(cells), old(firstDirty),
              writePtr, readPtr, nextDirty, cells, nextCell);
      Dirty := [];
      layoutActive := false;
    }

    /** The walk of `reader_joined` along the dirty list: each handle's stale
        reader copy is discarded, its reader view becomes the writer's copy,
        and its link is unlinked. */
    method SyncDirty()
      requires Valid()
      modifies this`readPtr, this`nextDirty, this`cells
      ensures Joining(old(Dirty), old(readPtr), old(nextDirty), old(cells), writePtr, |Dirty|, readPtr, nextDirty, cells)
    {
      ghost var d, r0, nd0, c0 := Dirty, readPtr, nextDirty, cells;
      ChainDistinct(nextDirty, firstDirty, d);
      var handle := firstDirty;
      ghost var k := 0;
      while handle.Some?
        invariant Joining(d, r0, nd0, c0, writePtr, k, readPtr, nextDirty, cells)
        invariant handle == LinkAt(d, k)
        decreases |d| - k
      {
        var h := handle.value;
        JoinStep(d, r0, nd0, c0, writePtr, k, readPtr, nextDirty, cells);
        cells := cells - {readPtr[h]};
        readPtr := readPtr[h := writePtr[h]];
        var next := nextDirty[h];
        nextDirty := nextDirty[h := None];
        handle := next;
        k := k + 1;
      }
    }

    /** The writer's read. */
    method Read(h: Handle) returns (v: T)
      requires Valid() && h < |freeList|
      ensures v == WriterView(h)
    {
      v := cells[writePtr[h]];
    }

    /** The reader's read (`Handle::read`). */
    method ReaderRead(h: Handle) returns (v: T)
      requires Valid() && h < |freeList|
      ensures v == ReaderView(h)
      ensures !Diverged(h) ==> v == WriterView(h)
    {
      v := cells[readPtr[h]];
    }

    method HasAux(h: Handle) returns (b: bool)
      requires Valid() && h < |freeList|
      ensures b <==> readAux[h].Some?
    {
      b := readAux[h].Some?;
    }

    method SetAux(h: Handle, a: A)
      requires Valid() && h < |freeList|
      modifies this`readAux
      ensures Valid() && readAux == old(readAux)[h := Some(a)]
    {
      readAux := readAux[h := Some(a)];
    }

    method Aux(h: Handle) returns (a: A)
      requires Valid() && h < |freeList| && readAux[h].Some?
      ensures readAux[h] == Some(a)
    {
      a := readAux[h].value;
    }
  }
}
