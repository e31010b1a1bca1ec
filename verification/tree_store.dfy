/** The mutable Tree of document/store: a root that edits and compaction replace, and snapshots of it. */
module TreeStore {
  import opened Documents
  import opened PieceTree

  datatype Options = Options(autoCompactPieces: int, disableAutoCompact: bool)
  datatype Option<+T> = None | Some(value: T)

  datatype CompactResult = CompactResult(beforePieces: int, afterPieces: int)

  /** The value of a Tree. */
  datatype State = State(root: Node, sources: map<SourceID, nat>, threshold: int, next: int, compactions: int)

  predicate ValidState(s: State) {
    && WellFormed(s.root) && NodeBytes(s.root) <= MAX_INT64
    && (s.threshold == 0 || 2 <= s.threshold <= MAX_INT64)
    && (s.threshold != 0 ==> s.next >= s.threshold)
  }

  /** Automatic compaction is due only at the trigger, and the trigger has not been reached. */
  predicate BelowTrigger(s: State) {
    s.threshold == 0 || |Pieces(s.root)| < s.next || s.next == MAX_INT64
  }

  function ResolveOptions(options: Options): Result<int> {
    if options.disableAutoCompact then
      if options.autoCompactPieces != 0 then Failure(InvalidOptions) else Success(0)
    else if options.autoCompactPieces == 0 then Success(DEFAULT_AUTO_COMPACT_PIECES)
    else if options.autoCompactPieces < 2 then Failure(InvalidOptions)
    else Success(options.autoCompactPieces)
  }

  /** The checks of ReplacePiece, in their order. */
  function EditError(s: State, start: int, deleteLength: int, piece: Piece): Option<Error> {
    var length := NodeBytes(s.root);
    if !InRange(length, start, deleteLength) then Some(InvalidRange)
    else if !ValidPiece(NormalizePiece(piece)) then Some(InvalidPiece)
    else if piece.length > 0 && piece.source !in s.sources then Some(UnknownSource)
    else if piece.length > MAX_INT64 - (length - deleteLength) then Some(LengthOverflow)
    else None
  }

  /** What one accepted ReplacePiece does to the tree, whatever priorities it draws and
      whether or not it compacts: the document is spliced, everything else is kept. */
  ghost predicate EditStep(s: State, t: State, start: int, deleteLength: int, piece: Piece)
    requires ValidState(s) && EditError(s, start, deleteLength, piece) == None
  {
    && ValidState(t)
    && t.sources == s.sources && t.threshold == s.threshold
    && start + deleteLength <= |Refs(s.root)|
    && Refs(t.root) == Splice(Refs(s.root), start, deleteLength, PieceRefs(piece))
    && (forall w :: Exact(s.root, w) && PieceExact(piece, w) ==> Exact(t.root, w))
    && (if deleteLength == 0 && piece.length == 0 then t == s else BelowTrigger(t))
  }

  /** What Compact does: same document, no contiguous neighbours, no more pieces than before. */
  ghost predicate CompactStep(s: State, t: State)
    requires ValidState(s)
  {
    && ValidState(t) && BelowTrigger(t)
    && t.sources == s.sources && t.threshold == s.threshold && t.compactions == s.compactions
    && Refs(t.root) == Refs(s.root)
    && Pieces(t.root) == (if |Pieces(s.root)| < 2 then Pieces(s.root) else Coalesce(Pieces(s.root)))
    && Compacted(Pieces(t.root))
    && (forall w :: Exact(s.root, w) ==> Exact(t.root, w))
  }

  predicate RestoreStep(s: State, t: State, snapshot: Snapshot) {
    t == s.(root := snapshot.root, sources := snapshot.sources, next := s.threshold)
  }

  class Tree {
    var root: Node
    var sources: map<SourceID, nat>
    const autoCompactPieces: int
    var nextAutoCompactPieces: int
    var autoCompactions: int

    ghost function Value(): State
      reads this
    {
      State(root, sources, autoCompactPieces, nextAutoCompactPieces, autoCompactions)
    }

    ghost predicate Valid()
      reads this
    {
      ValidState(Value())
    }

    constructor (root: Node, sources: map<SourceID, nat>, autoCompactPieces: int)
      ensures Value() == State(root, sources, autoCompactPieces, autoCompactPieces, 0)
    {
      this.root := root;
      this.sources := sources;
      this.autoCompactPieces := autoCompactPieces;
      nextAutoCompactPieces := autoCompactPieces;
      autoCompactions := 0;
    }

    /** makeNode: the priority comes from the generator, so any number is possible. */
    method MakeNode(piece: Piece) returns (n: Node)
      ensures n.Node? && n == Leaf(piece, n.priority)
    {
      var priority: nat := *;
      n := Leaf(piece, priority);
    }

    method TakeSnapshot() returns (s: Snapshot)
      ensures s == Snapshot(root, sources)
    {
      s := Snapshot(root, sources);
    }

    method SetSource(id: SourceID, source: Option<nat>)
      requires Valid()
      modifies this`sources
      ensures Valid()
      ensures sources == if source.None? then old(sources) - {id} else old(sources)[id := source.value]
    {
      sources := if source.None? then sources - {id} else sources[id := source.value];
    }

    method CompactLocked() returns (result: CompactResult)
      requires Valid()
      modifies this`root
      ensures Valid()
      ensures result == CompactResult(|Pieces(old(root))|, |Pieces(root)|)
      ensures Refs(root) == Refs(old(root)) && Compacted(Pieces(root))
      ensures Pieces(root) == if |Pieces(old(root))| < 2 then Pieces(old(root)) else Coalesce(Pieces(old(root)))
      ensures |Pieces(root)| <= |Pieces(old(root))|
      ensures forall w :: Exact(old(root), w) ==> Exact(root, w)
    {
      ghost var anyWorld := World(map[], map[]);
      CachedSums(root, anyWorld);
      WellFormedPieces(root);
      var before := NodePieceCount(root);
      if before < 2 {
        return CompactResult(before, before);
      }
      var walked := Pieces(root);
      var pieces := CoalesceLoop(walked);
      CoalesceCorrect(walked, anyWorld);
      root := BuildTree(pieces);
      CachedSums(root, anyWorld);
      forall w | Exact(old(root), w)
        ensures Exact(root, w)
      {
        CoalesceCorrect(walked, w);
      }
      result := CompactResult(before, |pieces|);
    }

    /** The visit of walk: extend the last piece when contiguous, append otherwise. */
    static method CoalesceLoop(walked: seq<Piece>) returns (pieces: seq<Piece>)
      ensures pieces == Coalesce(walked)
    {
      hide Coalesce;
      pieces := [];
      CoalesceNothing(walked);
      var i := 0;
      while i < |walked|
        invariant 0 <= i <= |walked|
        invariant pieces == Coalesce(walked[..i])
      {
        var piece := walked[i];
        CoalesceStep(walked, i);
        var last := |pieces| - 1;
        if last >= 0 && Contiguous(pieces[last], piece) {
          pieces := pieces[last := JoinPieces(pieces[last], piece)];
        } else {
          pieces := pieces + [piece];
        }
        i := i + 1;
      }
      assert walked[..i] == walked;
    }

    static lemma CoalesceNothing(walked: seq<Piece>)
      ensures Coalesce(walked[..0]) == []
    {
    }

    static lemma CoalesceStep(walked: seq<Piece>, i: nat)
      requires i < |walked|
      ensures Coalesce(walked[..i + 1]) == Push(Coalesce(walked[..i]), walked[i])
    {
      assert walked[..i + 1][..i] == walked[..i];
    }

    /** A fresh treap over a list of pieces, merged in from the right. */
    method BuildTree(pieces: seq<Piece>) returns (n: Node)
      requires AllStored(pieces)
      ensures WellFormed(n) && Pieces(n) == pieces
    {
      n := Nil;
      var i := 0;
      while i < |pieces|
        invariant 0 <= i <= |pieces|
        invariant WellFormed(n) && Pieces(n) == pieces[..i]
      {
        var leaf := MakeNode(pieces[i]);
        MergePieces(n, leaf);
        MergeWellFormed(n, leaf, Max(if n.Node? then n.priority else 0, leaf.priority));
        n := Merge(n, leaf);
        i := i + 1;
      }
      assert pieces[..i] == pieces;
    }

    method ScheduleNextAutoCompactLocked(pieces: int)
      requires autoCompactPieces == 0 || 2 <= autoCompactPieces <= MAX_INT64
      requires pieces >= 0
      modifies this`nextAutoCompactPieces
      ensures autoCompactPieces == 0 ==> nextAutoCompactPieces == 0
      ensures autoCompactPieces != 0 ==>
                nextAutoCompactPieces >= autoCompactPieces &&
                (pieces < nextAutoCompactPieces || nextAutoCompactPieces == MAX_INT64)
      ensures autoCompactPieces != 0 && autoCompactPieces <= pieces <= MAX_INT64 - autoCompactPieces ==>
                nextAutoCompactPieces == pieces + autoCompactPieces
    {
      if autoCompactPieces == 0 {
        nextAutoCompactPieces := 0;
      } else if pieces < autoCompactPieces {
        nextAutoCompactPieces := autoCompactPieces;
      } else if pieces > MAX_INT64 - autoCompactPieces {
        nextAutoCompactPieces := MAX_INT64;
      } else {
        nextAutoCompactPieces := pieces + autoCompactPieces;
      }
    }

    method Compact() returns (result: CompactResult)
      requires Valid()
      modifies this`root, this`nextAutoCompactPieces
      ensures CompactStep(old(Value()), Value())
      ensures result == CompactResult(|Pieces(old(root))|, |Pieces(root)|)
    {
      result := CompactLocked();
      ScheduleNextAutoCompactLocked(result.afterPieces);
    }

    method MaybeAutoCompactLocked()
      requires Valid()
      modifies this`root, this`nextAutoCompactPieces, this`autoCompactions
      ensures Valid() && BelowTrigger(Value())
      ensures Refs(root) == Refs(old(root))
      ensures forall w :: Exact(old(root), w) ==> Exact(root, w)
      ensures if autoCompactPieces != 0 && |Pieces(old(root))| >= Max(autoCompactPieces, old(nextAutoCompactPieces))
              then Compacted(Pieces(root)) && autoCompactions == old(autoCompactions) + 1
              else root == old(root) && autoCompactions == old(autoCompactions)
    {
      if autoCompactPieces == 0 {
        return;
      }
      CachedSums(root, World(map[], map[]));
      var pieces := NodePieceCount(root);
      if pieces < autoCompactPieces {
        nextAutoCompactPieces := autoCompactPieces;
        return;
      }
      if pieces < nextAutoCompactPieces {
        return;
      }
      var result := CompactLocked();
      autoCompactions := autoCompactions + 1;
      ScheduleNextAutoCompactLocked(result.afterPieces);
    }

    method Restore(snapshot: Snapshot)
      requires Valid() && WellFormed(snapshot.root) && NodeBytes(snapshot.root) <= MAX_INT64
      modifies this`root, this`sources, this`nextAutoCompactPieces
      ensures RestoreStep(old(Value()), Value(), snapshot) && Valid()
    {
      root := snapshot.root;
      sources := snapshot.sources;
      nextAutoCompactPieces := autoCompactPieces;
    }

    method ReplacePiece(start: int, deleteLength: int, replacement: Piece)
      returns (result: Result<(Snapshot, Snapshot)>)
      requires Valid()
      modifies this`root, this`nextAutoCompactPieces, this`autoCompactions
      ensures Valid()
      ensures var error := EditError(old(Value()), start, deleteLength, replacement);
              if error.Some? then result == Failure(error.value) && Value() == old(Value())
              else result == Success((Snapshot(old(root), old(sources)), Snapshot(root, sources))) &&
                   EditStep(old(Value()), Value(), start, deleteLength, replacement)
    {
      var length := NodeBytes(root);
      if start < 0 || deleteLength < 0 || start > length || deleteLength > length - start {
        return Failure(InvalidRange);
      }
      var piece := NormalizePiece(replacement);
      if !ValidPiece(piece) {
        return Failure(InvalidPiece);
      }
      if piece.length > 0 && piece.source !in sources {
        return Failure(UnknownSource);
      }
      if piece.length > MAX_INT64 - (length - deleteLength) {
        return Failure(LengthOverflow);
      }
      var before := Snapshot(root, sources);
      if deleteLength == 0 && piece.length == 0 {
        NoEdit(root, start, replacement);
        return Success((before, before));
      }
      root := Replaced(start, deleteLength, piece);
      SameReplacement(replacement);
      MaybeAutoCompactLocked();
      result := Success((before, Snapshot(root, sources)));
    }

    /** The new root of ReplacePiece: split twice, put the replacement between. */
    method Replaced(start: int, deleteLength: int, piece: Piece) returns (n: Node)
      requires Valid() && InRange(NodeBytes(root), start, deleteLength)
      requires ValidPiece(piece) && NormalizePiece(piece) == piece
      ensures start + deleteLength <= |Refs(root)|
      ensures WellFormed(n) && Refs(n) == Splice(Refs(root), start, deleteLength, PieceRefs(piece))
      ensures NodeBytes(n) == NodeBytes(root) - deleteLength + piece.length
      ensures forall w :: Exact(root, w) && PieceExact(piece, w) ==> Exact(n, w)
    {
      var left, right := CutOut(start, deleteLength);
      var middle := Nil;
      if piece.length > 0 {
        middle := MakeNode(piece);
      }
      PutTogether(left, middle, right, piece);
      n := Merge(Merge(left, middle), right);
      CachedSums(root, World(map[], map[]));
      CachedSums(n, World(map[], map[]));
      forall w | Exact(root, w) && PieceExact(piece, w)
        ensures Exact(n, w)
      {
        SplitExact(root, start, w);
        SplitExact(Split(root, start).1, deleteLength, w);
        MiddleExact(left, middle, right, piece, w);
      }
    }

    /** The two splits of ReplacePiece. */
    method CutOut(start: int, deleteLength: int) returns (left: Node, right: Node)
      requires Valid() && InRange(NodeBytes(root), start, deleteLength)
      ensures start + deleteLength <= |Refs(root)|
      ensures left == Split(root, start).0 && right == Split(Split(root, start).1, deleteLength).1
      ensures WellFormed(left) && WellFormed(right)
      ensures Refs(left) == Refs(root)[..start] && Refs(right) == Refs(root)[start + deleteLength..]
    {
      ghost var anyWorld := World(map[], map[]);
      ghost var top := if root.Node? then root.priority else 0;
      CachedSums(root, anyWorld);
      SplitWellFormed(root, start, top);
      SplitRefs(root, start, anyWorld);
      var tail;
      left, tail := Split(root, start).0, Split(root, start).1;
      CachedSums(tail, anyWorld);
      SplitWellFormed(tail, deleteLength, top);
      SplitRefs(tail, deleteLength, anyWorld);
      right := Split(tail, deleteLength).1;
    }
  }

  lemma NoEdit(n: Node, start: int, piece: Piece)
    requires WellFormed(n) && 0 <= start <= NodeBytes(n) && piece.length == 0
    ensures start <= |Refs(n)| && Splice(Refs(n), start, 0, PieceRefs(piece)) == Refs(n)
  {
    CachedSums(n, World(map[], map[]));
  }

  /** Normalizing a piece changes neither its bytes nor whether its newline count is right. */
  lemma SameReplacement(piece: Piece)
    ensures PieceRefs(NormalizePiece(piece)) == PieceRefs(piece)
    ensures forall w :: PieceExact(NormalizePiece(piece), w) <==> PieceExact(piece, w)
  {
    assert PieceRefs(NormalizePiece(piece)) == PieceRefs(piece);
  }

  function Priority(n: Node): nat {
    if n.Node? then n.priority else 0
  }

  lemma MiddleNode(middle: Node, piece: Piece)
    requires ValidPiece(piece) && NormalizePiece(piece) == piece
    requires middle == if piece.length > 0 then Leaf(piece, Priority(middle)) else Nil
    ensures WellFormed(middle) && Refs(middle) == PieceRefs(piece)
  {
    if piece.length > 0 {
      assert Pieces(middle) == [piece] && [] + [piece] == [piece];
      ExpandSnoc([], piece);
    }
  }

  lemma PutTogether(left: Node, middle: Node, right: Node, piece: Piece)
    requires WellFormed(left) && WellFormed(right) && ValidPiece(piece) && NormalizePiece(piece) == piece
    requires middle == if piece.length > 0 then Leaf(piece, Priority(middle)) else Nil
    ensures WellFormed(Merge(Merge(left, middle), right))
    ensures Pieces(Merge(Merge(left, middle), right)) == Pieces(left) + Pieces(middle) + Pieces(right)
    ensures Refs(Merge(Merge(left, middle), right)) == Refs(left) + PieceRefs(piece) + Refs(right)
  {
    hide Merge, WellFormed, Pieces, Expand, PieceRefs;
    var top: nat := Max(Priority(left), Max(Priority(middle), Priority(right)));
    MiddleNode(middle, piece);
    MergeWellFormed(left, middle, top);
    MergeWellFormed(Merge(left, middle), right, top);
    MergePieces(left, middle);
    MergePieces(Merge(left, middle), right);
    ExpandConcat(Pieces(left), Pieces(middle));
    ExpandConcat(Pieces(left) + Pieces(middle), Pieces(right));
  }

  lemma MiddleExact(left: Node, middle: Node, right: Node, piece: Piece, w: World)
    requires Exact(left, w) && Exact(right, w) && PieceExact(piece, w)
    requires middle == Nil || middle == Leaf(piece, Priority(middle))
    ensures Exact(Merge(Merge(left, middle), right), w)
  {
    MergePieces(left, middle);
    MergePieces(Merge(left, middle), right);
  }

  // ---------------------------------------------------------------- runs

  datatype Command =
    | Edit(start: int, deleteLength: int, piece: Piece)
    | CompactNow
    | Save
    | RestoreTo(index: nat)

  /** A tree and the snapshots taken of it so far. */
  datatype Store = Store(tree: State, saved: seq<Snapshot>)

  ghost predicate ValidStore(s: Store) {
    && ValidState(s.tree)
    && forall i :: 0 <= i < |s.saved| ==> WellFormed(s.saved[i].root) && NodeBytes(s.saved[i].root) <= MAX_INT64
  }

  /** The transitions that the methods of Tree make. */
  ghost predicate Step(c: Command, s: Store, t: Store)
    requires ValidStore(s)
  {
    match c
    case Edit(start, deleteLength, piece) =>
      t.saved == s.saved &&
      (if EditError(s.tree, start, deleteLength, piece).Some? then t.tree == s.tree
       else EditStep(s.tree, t.tree, start, deleteLength, piece))
    case CompactNow => t.saved == s.saved && CompactStep(s.tree, t.tree)
    case Save => t == s.(saved := s.saved + [Snapshot(s.tree.root, s.tree.sources)])
    case RestoreTo(index) =>
      index < |s.saved| && t.saved == s.saved && RestoreStep(s.tree, t.tree, s.saved[index])
  }

  /** The reference: a plain sequence of bytes (by reference), and plain copies of it. */
  datatype Plain = Plain(doc: seq<Ref>, sources: map<SourceID, nat>)
  datatype PlainStore = PlainStore(current: Plain, saved: seq<Plain>)

  function PlainStep(c: Command, p: PlainStore): PlainStore {
    match c
    case Edit(start, deleteLength, piece) =>
      if InRange(|p.current.doc|, start, deleteLength) && ValidPiece(NormalizePiece(piece)) &&
         (piece.length > 0 ==> piece.source in p.current.sources) &&
         piece.length <= MAX_INT64 - (|p.current.doc| - deleteLength)
      then p.(current := p.current.(doc := Splice(p.current.doc, start, deleteLength, PieceRefs(piece))))
      else p
    case CompactNow => p
    case Save => p.(saved := p.saved + [p.current])
    case RestoreTo(index) => if index < |p.saved| then p.(current := p.saved[index]) else p
  }

  function PlainRun(cs: seq<Command>, p: PlainStore): PlainStore
    decreases |cs|
  {
    if cs == [] then p else PlainStep(cs[|cs| - 1], PlainRun(cs[..|cs| - 1], p))
  }

  function Abstract(s: Store): PlainStore {
    PlainStore(Plain(Refs(s.tree.root), s.tree.sources),
               seq(|s.saved|, i requires 0 <= i < |s.saved| => Plain(Refs(s.saved[i].root), s.saved[i].sources)))
  }

  ghost predicate Run(cs: seq<Command>, run: seq<Store>) {
    && |run| == |cs| + 1
    && ValidStore(run[0])
    && forall i :: 0 <= i < |cs| ==> ValidStore(run[i]) && Step(cs[i], run[i], run[i + 1])
  }

  lemma StepRefines(c: Command, s: Store, t: Store)
    requires ValidStore(s) && Step(c, s, t)
    ensures ValidStore(t)
    ensures Abstract(t) == PlainStep(c, Abstract(s))
    ensures s.saved <= t.saved
  {
    CachedSums(s.tree.root, World(map[], map[]));
  }

  /** Any run of edits, compactions, snapshots and restores is the same run of splices and
      copies on a plain sequence: neither rebalancing nor compaction can be observed, and no
      snapshot ever changes. */
  lemma {:induction false} RunRefinesSplices(cs: seq<Command>, run: seq<Store>)
    requires Run(cs, run)
    ensures ValidStore(run[|cs|])
    ensures Abstract(run[|cs|]) == PlainRun(cs, Abstract(run[0]))
    ensures run[0].saved <= run[|cs|].saved
    decreases |cs|
  {
    if cs != [] {
      var n := |cs| - 1;
      RunRefinesSplices(cs[..n], run[..n + 1]);
      StepRefines(cs[n], run[n], run[n + 1]);
    }
  }

  ghost predicate StoreExact(s: Store, w: World) {
    Exact(s.tree.root, w) && forall i :: 0 <= i < |s.saved| ==> Exact(s.saved[i].root, w)
  }

  /** When every inserted piece carries a right newline count, or none, the cached count of the
      current tree and of every snapshot is the number of LF bytes whenever it is known. */
  lemma {:induction false} RunKeepsNewlines(cs: seq<Command>, run: seq<Store>, w: World)
    requires Run(cs, run) && StoreExact(run[0], w)
    requires forall i :: 0 <= i < |cs| && cs[i].Edit? ==> PieceExact(cs[i].piece, w)
    ensures StoreExact(run[|cs|], w)
    ensures var root := run[|cs|].tree.root;
            NodeNewlinesKnown(root) ==> NodeNewlines(root) == CountLF(Content(root, w))
    decreases |cs|
  {
    if cs != [] {
      var n := |cs| - 1;
      RunKeepsNewlines(cs[..n], run[..n + 1], w);
      StepRefines(cs[n], run[n], run[n + 1]);
    }
    CachedSums(run[|cs|].tree.root, w);
  }
}
