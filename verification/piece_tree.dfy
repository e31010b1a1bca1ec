/** The persistent treap of document/store: logical content as pieces of external sources. */
module PieceTree {
  import opened Documents

  type SourceID = s: int | 0 <= s < 256

  const SOURCE_BASE: SourceID := 1
  const SOURCE_JOURNAL: SourceID := 2
  const DEFAULT_AUTO_COMPACT_PIECES := 4096

  datatype Piece = Piece(source: SourceID, offset: int, length: int, newlines: int, newlinesKnown: bool)

  /** An immutable node with the sums cached over its subtree. Nil is the nil pointer. */
  datatype Node =
    | Nil
    | Node(piece: Piece, priority: nat, left: Node, right: Node,
           bytes: int, newlines: int, newlinesKnown: bool, pieceCount: int)

  datatype Error = InvalidRange | InvalidPiece | InvalidOptions | LengthOverflow | UnknownSource | UnexpectedEOF

  /** One byte of the document, by reference: a position in a source. */
  datatype Ref = Ref(source: SourceID, offset: int)

  /** What readers see: the handle bound to each source, and the bytes behind each handle. */
  datatype World = World(sources: map<SourceID, nat>, files: map<nat, seq<byte>>)

  // ---------------------------------------------------------------- content

  function PieceRefs(p: Piece): (r: seq<Ref>)
    ensures |r| == Max(0, p.length)
  {
    seq(Max(0, p.length), i => Ref(p.source, p.offset + i))
  }

  /** In-order pieces: what walk visits. */
  function Pieces(n: Node): seq<Piece> {
    if n.Nil? then [] else Pieces(n.left) + [n.piece] + Pieces(n.right)
  }

  function Expand(ps: seq<Piece>): seq<Ref>
    decreases |ps|
  {
    if ps == [] then [] else Expand(ps[..|ps| - 1]) + PieceRefs(ps[|ps| - 1])
  }

  /** The document held by a tree, as references: the pieces that walk visits, spelled out. */
  function Refs(n: Node): seq<Ref> {
    Expand(Pieces(n))
  }

  /** The byte behind a reference; 0 where the source does not reach. */
  function ByteAt(ref: Ref, w: World): byte {
    if ref.source in w.sources && w.sources[ref.source] in w.files &&
       0 <= ref.offset < |w.files[w.sources[ref.source]]|
    then w.files[w.sources[ref.source]][ref.offset] else 0
  }

  function Resolve(refs: seq<Ref>, w: World): (s: seq<byte>)
    ensures |s| == |refs|
  {
    seq(|refs|, i requires 0 <= i < |refs| => ByteAt(refs[i], w))
  }

  /** The bytes a tree stands for. */
  function Content(n: Node, w: World): seq<byte> {
    Resolve(Refs(n), w)
  }

  // ---------------------------------------------------------------- node invariant

  function NodeBytes(n: Node): int { if n.Nil? then 0 else n.bytes }
  function NodePieceCount(n: Node): int { if n.Nil? then 0 else n.pieceCount }
  function NodeNewlines(n: Node): int { if n.Nil? then 0 else n.newlines }
  function NodeNewlinesKnown(n: Node): bool { n.Nil? || n.newlinesKnown }

  predicate ValidPiece(p: Piece) {
    p.length == 0 ||
    (p.length > 0 && 0 <= p.offset <= MAX_INT64 - p.length &&
     (p.newlinesKnown ==> 0 <= p.newlines <= p.length))
  }

  function NormalizePiece(p: Piece): Piece {
    if p.newlinesKnown then p else p.(newlines := 0)
  }

  /** A stored piece is valid, normalized and never empty. */
  predicate StoredPiece(p: Piece) {
    ValidPiece(p) && p.length > 0 && NormalizePiece(p) == p
  }

  function Recalc(piece: Piece, priority: nat, left: Node, right: Node): Node {
    Node(piece, priority, left, right,
         NodeBytes(left) + piece.length + NodeBytes(right),
         NodeNewlines(left) + piece.newlines + NodeNewlines(right),
         NodeNewlinesKnown(left) && piece.newlinesKnown && NodeNewlinesKnown(right),
         NodePieceCount(left) + 1 + NodePieceCount(right))
  }

  function CloneNode(n: Node, left: Node, right: Node): Node
    requires n.Node?
  {
    Recalc(n.piece, n.priority, left, right)
  }

  predicate Below(n: Node, priority: nat) {
    n.Node? ==> n.priority <= priority
  }

  /** Cached sums are those of recalc, priorities are heap ordered, pieces are storable. */
  predicate WellFormed(n: Node) {
    n.Node? ==>
      && WellFormed(n.left) && WellFormed(n.right)
      && StoredPiece(n.piece)
      && n == Recalc(n.piece, n.priority, n.left, n.right)
      && Below(n.left, n.priority) && Below(n.right, n.priority)
  }

  /** A known newline count of a piece is the true one. */
  predicate PieceExact(p: Piece, w: World) {
    p.newlinesKnown ==> p.newlines == CountLF(Resolve(PieceRefs(p), w))
  }

  predicate AllExact(ps: seq<Piece>, w: World) {
    forall i :: 0 <= i < |ps| ==> PieceExact(ps[i], w)
  }

  predicate Exact(n: Node, w: World) {
    AllExact(Pieces(n), w)
  }

  lemma ResolveConcat(a: seq<Ref>, b: seq<Ref>, w: World)
    ensures Resolve(a + b, w) == Resolve(a, w) + Resolve(b, w)
  {
  }

  lemma ExpandSnoc(ps: seq<Piece>, p: Piece)
    ensures Expand(ps + [p]) == Expand(ps) + PieceRefs(p)
  {
    assert (ps + [p])[..|ps|] == ps;
  }

  lemma {:induction false} ExpandConcat(a: seq<Piece>, b: seq<Piece>)
    ensures Expand(a + b) == Expand(a) + Expand(b)
    decreases |b|
  {
    if b == [] {
      assert a + b == a;
    } else {
      var front, last := b[..|b| - 1], b[|b| - 1];
      ExpandConcat(a, front);
      assert a + b == (a + front) + [last];
      ExpandSnoc(a + front, last);
      assert Expand(a) + (Expand(front) + PieceRefs(last)) == (Expand(a) + Expand(front)) + PieceRefs(last);
    }
  }

  /** The document of a node is that of its left subtree, its piece and its right subtree. */
  lemma NodeRefs(n: Node)
    requires n.Node?
    ensures Refs(n) == Refs(n.left) + PieceRefs(n.piece) + Refs(n.right)
  {
    ExpandSnoc(Pieces(n.left), n.piece);
    ExpandConcat(Pieces(n.left) + [n.piece], Pieces(n.right));
  }

  lemma AllExactConcat(a: seq<Piece>, b: seq<Piece>, w: World)
    ensures AllExact(a + b, w) <==> AllExact(a, w) && AllExact(b, w)
  {
    hide PieceExact;
    var ab := a + b;
    assert forall i :: 0 <= i < |a| ==> a[i] == ab[i];
    assert forall i :: 0 <= i < |b| ==> b[i] == ab[|a| + i];
  }

  lemma NodeExact(n: Node, w: World)
    requires n.Node?
    ensures Exact(n, w) <==> Exact(n.left, w) && PieceExact(n.piece, w) && Exact(n.right, w)
  {
    AllExactConcat(Pieces(n.left) + [n.piece], Pieces(n.right), w);
    AllExactConcat(Pieces(n.left), [n.piece], w);
    assert [n.piece][0] == n.piece;
  }

  /** The cached sums of a well-formed tree are its length, its number of pieces and, when known, its newlines. */
  lemma {:induction false} CachedSums(n: Node, w: World)
    requires WellFormed(n)
    ensures NodeBytes(n) == |Refs(n)|
    ensures NodePieceCount(n) == |Pieces(n)|
    ensures Exact(n, w) && NodeNewlinesKnown(n) ==> NodeNewlines(n) == CountLF(Content(n, w))
  {
    if n.Node? {
      CachedSums(n.left, w);
      CachedSums(n.right, w);
      NodeRefs(n);
      NodeExact(n, w);
      var l, p, r := Refs(n.left), PieceRefs(n.piece), Refs(n.right);
      ResolveConcat(l, p, w);
      ResolveConcat(l + p, r, w);
      CountLFConcat(Resolve(l, w), Resolve(p, w));
      CountLFConcat(Resolve(l + p, w), Resolve(r, w));
    }
  }

  // ---------------------------------------------------------------- merge and split

  function Merge(left: Node, right: Node): Node {
    if left.Nil? then right
    else if right.Nil? then left
    else if left.priority >= right.priority then CloneNode(left, left.left, Merge(left.right, right))
    else CloneNode(right, Merge(left, right.left), right.right)
  }

  lemma {:induction false} MergeWellFormed(left: Node, right: Node, priority: nat)
    requires WellFormed(left) && WellFormed(right)
    requires Below(left, priority) && Below(right, priority)
    ensures WellFormed(Merge(left, right)) && Below(Merge(left, right), priority)
  {
    if left.Node? && right.Node? {
      if left.priority >= right.priority {
        MergeWellFormed(left.right, right, left.priority);
      } else {
        MergeWellFormed(left, right.left, right.priority);
      }
    }
  }

  lemma {:induction false} MergePieces(left: Node, right: Node)
    ensures Pieces(Merge(left, right)) == Pieces(left) + Pieces(right)
  {
    if left.Node? && right.Node? {
      if left.priority >= right.priority {
        MergePieces(left.right, right);
        assert Pieces(left) + Pieces(right) == Pieces(left.left) + [left.piece] + (Pieces(left.right) + Pieces(right));
      } else {
        MergePieces(left, right.left);
      }
    }
  }

  /** The part of a piece that starts at byte from; its newline count is no longer known. */
  function Fragment(p: Piece, from: int, length: int): Piece {
    Piece(p.source, p.offset + from, length, 0, false)
  }

  function Leaf(p: Piece, priority: nat): Node {
    Recalc(p, priority, Nil, Nil)
  }

  function Split(n: Node, pos: int): (Node, Node) {
    if n.Nil? then (Nil, Nil) else
      var leftBytes := NodeBytes(n.left);
      var pieceEnd := leftBytes + n.piece.length;
      if pos < leftBytes then
        var s := Split(n.left, pos);
        (s.0, CloneNode(n, s.1, n.right))
      else if pos > pieceEnd then
        var s := Split(n.right, pos - pieceEnd);
        (CloneNode(n, n.left, s.0), s.1)
      else if pos == leftBytes then
        (n.left, CloneNode(n, Nil, n.right))
      else if pos == pieceEnd then
        (CloneNode(n, n.left, Nil), n.right)
      else
        var leftLength := pos - leftBytes;
        (Merge(n.left, Leaf(Fragment(n.piece, 0, leftLength), n.priority)),
         Merge(Leaf(Fragment(n.piece, leftLength, n.piece.length - leftLength), n.priority), n.right))
  }

  /** Splitting keeps heap order, because both fragments of a cut piece inherit the
      priority of the node they replace. */
  lemma {:induction false} SplitWellFormed(n: Node, pos: int, priority: nat)
    requires WellFormed(n) && Below(n, priority)
    ensures WellFormed(Split(n, pos).0) && WellFormed(Split(n, pos).1)
    ensures Below(Split(n, pos).0, priority) && Below(Split(n, pos).1, priority)
  {
    if n.Node? {
      var leftBytes := NodeBytes(n.left);
      var pieceEnd := leftBytes + n.piece.length;
      if pos < leftBytes {
        SplitWellFormed(n.left, pos, n.priority);
      } else if pos > pieceEnd {
        SplitWellFormed(n.right, pos - pieceEnd, n.priority);
      } else if leftBytes < pos < pieceEnd {
        var leftLength := pos - leftBytes;
        MergeWellFormed(n.left, Leaf(Fragment(n.piece, 0, leftLength), n.priority), n.priority);
        MergeWellFormed(Leaf(Fragment(n.piece, leftLength, n.piece.length - leftLength), n.priority), n.right,
                        n.priority);
      }
    }
  }

  lemma LeafMerge(n: Node, p: Piece, priority: nat)
    ensures Pieces(Merge(n, Leaf(p, priority))) == Pieces(n) + [p]
    ensures Pieces(Merge(Leaf(p, priority), n)) == [p] + Pieces(n)
    ensures Refs(Merge(n, Leaf(p, priority))) == Refs(n) + PieceRefs(p)
    ensures Refs(Merge(Leaf(p, priority), n)) == PieceRefs(p) + Refs(n)
  {
    hide Merge, PieceRefs;
    MergePieces(n, Leaf(p, priority));
    MergePieces(Leaf(p, priority), n);
    assert Pieces(Leaf(p, priority)) == [p];
    hide Pieces;
    ExpandSnoc(Pieces(n), p);
    ExpandConcat([p], Pieces(n));
    ExpandSnoc([], p);
    assert [] + [p] == [p];
  }

  /** Cutting l + p + r, by the part the cut falls in. */
  lemma CutThree<T>(l: seq<T>, p: seq<T>, r: seq<T>, pos: nat)
    requires pos <= |l| + |p| + |r|
    ensures pos <= |l| ==> (l + p + r)[..pos] == l[..pos] && (l + p + r)[pos..] == l[pos..] + p + r
    ensures |l| <= pos <= |l| + |p| ==>
              (l + p + r)[..pos] == l + p[..pos - |l|] && (l + p + r)[pos..] == p[pos - |l|..] + r
    ensures |l| + |p| <= pos ==>
              (l + p + r)[..pos] == l + p + r[..pos - |l| - |p|] && (l + p + r)[pos..] == r[pos - |l| - |p|..]
  {
  }

  /** Splitting cuts the document at pos. */
  lemma {:induction false} SplitRefs(n: Node, pos: int, w: World)
    requires WellFormed(n) && 0 <= pos <= NodeBytes(n)
    ensures pos <= |Refs(n)|
    ensures Refs(Split(n, pos).0) == Refs(n)[..pos]
    ensures Refs(Split(n, pos).1) == Refs(n)[pos..]
  {
    CachedSums(n, w);
    if n.Node? {
      NodeRefs(n);
      CachedSums(n.left, w);
      var l, p, r := Refs(n.left), PieceRefs(n.piece), Refs(n.right);
      CutThree(l, p, r, pos);
      if pos < |l| {
        SplitRefs(n.left, pos, w);
        NodeRefs(CloneNode(n, Split(n.left, pos).1, n.right));
      } else if pos > |l| + |p| {
        SplitRefs(n.right, pos - |l| - |p|, w);
        NodeRefs(CloneNode(n, n.left, Split(n.right, pos - |l| - |p|).0));
      } else if pos == |l| {
        NodeRefs(CloneNode(n, Nil, n.right));
      } else if pos == |l| + |p| {
        NodeRefs(CloneNode(n, n.left, Nil));
      } else {
        SplitPieceRefs(n, pos - |l|);
      }
    }
  }

  /** The case where the cut falls inside the piece of n. */
  lemma SplitPieceRefs(n: Node, cut: int)
    requires WellFormed(n) && n.Node? && 0 < cut < n.piece.length
    ensures Refs(Split(n, NodeBytes(n.left) + cut).0) == Refs(n.left) + PieceRefs(n.piece)[..cut]
    ensures Refs(Split(n, NodeBytes(n.left) + cut).1) == PieceRefs(n.piece)[cut..] + Refs(n.right)
  {
    var a, b := Fragment(n.piece, 0, cut), Fragment(n.piece, cut, n.piece.length - cut);
    assert PieceRefs(a) == PieceRefs(n.piece)[..cut] && PieceRefs(b) == PieceRefs(n.piece)[cut..];
    LeafMerge(n.left, a, n.priority);
    LeafMerge(n.right, b, n.priority);
  }

  /** The case where the cut falls inside the piece of n: both fragments forget the newline count. */
  lemma SplitPieceExact(n: Node, cut: int, w: World)
    requires n.Node? && 0 < cut < n.piece.length && Exact(n.left, w) && Exact(n.right, w)
    ensures Exact(Split(n, NodeBytes(n.left) + cut).0, w) && Exact(Split(n, NodeBytes(n.left) + cut).1, w)
  {
    LeafMerge(n.left, Fragment(n.piece, 0, cut), n.priority);
    LeafMerge(n.right, Fragment(n.piece, cut, n.piece.length - cut), n.priority);
  }

  lemma {:induction false} SplitExact(n: Node, pos: int, w: World)
    requires Exact(n, w)
    ensures Exact(Split(n, pos).0, w) && Exact(Split(n, pos).1, w)
  {
    if n.Node? {
      NodeExact(n, w);
      var leftBytes := NodeBytes(n.left);
      var pieceEnd := leftBytes + n.piece.length;
      assert Exact(Nil, w);
      hide Exact, Merge;
      if pos < leftBytes {
        SplitExact(n.left, pos, w);
        NodeExact(CloneNode(n, Split(n.left, pos).1, n.right), w);
      } else if pos > pieceEnd {
        SplitExact(n.right, pos - pieceEnd, w);
        NodeExact(CloneNode(n, n.left, Split(n.right, pos - pieceEnd).0), w);
      } else if pos == leftBytes {
        NodeExact(CloneNode(n, Nil, n.right), w);
      } else if pos == pieceEnd {
        NodeExact(CloneNode(n, n.left, Nil), w);
      } else {
        SplitPieceExact(n, pos - leftBytes, w);
      }
    }
  }

  // ---------------------------------------------------------------- compaction

  predicate Contiguous(p: Piece, q: Piece) {
    p.source == q.source && p.offset + p.length == q.offset
  }

  function JoinPieces(p: Piece, q: Piece): Piece {
    Piece(p.source, p.offset, p.length + q.length,
          if p.newlinesKnown && q.newlinesKnown then p.newlines + q.newlines else 0,
          p.newlinesKnown && q.newlinesKnown)
  }

  /** Adds one piece to the compacted list, extending its last piece when contiguous. */
  function Push(acc: seq<Piece>, p: Piece): seq<Piece> {
    if acc != [] && Contiguous(acc[|acc| - 1], p)
    then acc[..|acc| - 1] + [JoinPieces(acc[|acc| - 1], p)]
    else acc + [p]
  }

  function Coalesce(ps: seq<Piece>): (r: seq<Piece>)
    ensures |r| <= |ps|
    ensures ps != [] ==> r != []
    decreases |ps|
  {
    if ps == [] then [] else Push(Coalesce(ps[..|ps| - 1]), ps[|ps| - 1])
  }

  /** Nothing contiguous is left unmerged. */
  predicate Compacted(ps: seq<Piece>) {
    forall i :: 0 <= i < |ps| - 1 ==> !Contiguous(ps[i], ps[i + 1])
  }

  predicate AllStored(ps: seq<Piece>) {
    forall i :: 0 <= i < |ps| ==> StoredPiece(ps[i])
  }

  lemma JoinCorrect(p: Piece, q: Piece, w: World)
    requires StoredPiece(p) && StoredPiece(q) && Contiguous(p, q)
    ensures StoredPiece(JoinPieces(p, q))
    ensures PieceRefs(JoinPieces(p, q)) == PieceRefs(p) + PieceRefs(q)
    ensures PieceExact(p, w) && PieceExact(q, w) ==> PieceExact(JoinPieces(p, q), w)
  {
    assert PieceRefs(JoinPieces(p, q)) == PieceRefs(p) + PieceRefs(q);
    ResolveConcat(PieceRefs(p), PieceRefs(q), w);
    CountLFConcat(Resolve(PieceRefs(p), w), Resolve(PieceRefs(q), w));
  }

  lemma PushExpand(acc: seq<Piece>, p: Piece, w: World)
    requires AllStored(acc) && StoredPiece(p)
    ensures Expand(Push(acc, p)) == Expand(acc) + PieceRefs(p)
  {
    hide PieceRefs;
    ExpandSnoc(acc, p);
    if acc != [] && Contiguous(acc[|acc| - 1], p) {
      var front, last := acc[..|acc| - 1], acc[|acc| - 1];
      JoinCorrect(last, p, w);
      ExpandSnoc(front, JoinPieces(last, p));
    }
  }

  lemma PushKeeps(acc: seq<Piece>, p: Piece, w: World)
    requires AllStored(acc) && StoredPiece(p) && Compacted(acc)
    ensures AllStored(Push(acc, p)) && Compacted(Push(acc, p))
    ensures AllExact(acc, w) && PieceExact(p, w) ==> AllExact(Push(acc, p), w)
  {
    if acc != [] && Contiguous(acc[|acc| - 1], p) {
      JoinCorrect(acc[|acc| - 1], p, w);
      if |acc| >= 2 {
        assert !Contiguous(acc[|acc| - 2], acc[|acc| - 2 + 1]);
      }
    }
  }

  /** Coalescing keeps the document and leaves no contiguous neighbours. */
  lemma {:induction false} CoalesceCorrect(ps: seq<Piece>, w: World)
    requires AllStored(ps)
    ensures AllStored(Coalesce(ps)) && Compacted(Coalesce(ps))
    ensures Expand(Coalesce(ps)) == Expand(ps)
    ensures AllExact(ps, w) ==> AllExact(Coalesce(ps), w)
    decreases |ps|
  {
    if ps != [] {
      CoalesceCorrect(ps[..|ps| - 1], w);
      PushExpand(Coalesce(ps[..|ps| - 1]), ps[|ps| - 1], w);
      PushKeeps(Coalesce(ps[..|ps| - 1]), ps[|ps| - 1], w);
    }
  }

  lemma {:induction false} WellFormedPieces(n: Node)
    requires WellFormed(n)
    ensures AllStored(Pieces(n))
  {
    if n.Node? {
      WellFormedPieces(n.left);
      WellFormedPieces(n.right);
    }
  }

  // ---------------------------------------------------------------- sources only grow

  /** Files are append-only while a handle is open. */
  predicate Grows(before: map<nat, seq<byte>>, after: map<nat, seq<byte>>) {
    forall h :: h in before ==> h in after && before[h] <= after[h]
  }

  datatype Snapshot = Snapshot(root: Node, sources: map<SourceID, nat>)

  predicate Readable(refs: seq<Ref>, w: World) {
    forall i :: 0 <= i < |refs| ==>
      refs[i].source in w.sources && w.sources[refs[i].source] in w.files &&
      0 <= refs[i].offset < |w.files[w.sources[refs[i].source]]|
  }

  /** A snapshot keeps its bytes however much is appended to the journal it reads from. */
  lemma SnapshotStable(s: Snapshot, before: map<nat, seq<byte>>, after: map<nat, seq<byte>>)
    requires Grows(before, after)
    requires Readable(Refs(s.root), World(s.sources, before))
    ensures Readable(Refs(s.root), World(s.sources, after))
    ensures Content(s.root, World(s.sources, before)) == Content(s.root, World(s.sources, after))
  {
    var b, a := World(s.sources, before), World(s.sources, after);
    forall i | 0 <= i < |Refs(s.root)|
      ensures ByteAt(Refs(s.root)[i], b) == ByteAt(Refs(s.root)[i], a)
    {
    }
  }

  // ---------------------------------------------------------------- reading

  datatype ReadResult = ReadResult(data: seq<byte>, error: ReadError)
  datatype ReadError = NoError | EOF | NoSource

  /** ReaderAt over a file: as many bytes as there are, and EOF when that is fewer than wanted. */
  function ReadSource(w: World, source: SourceID, offset: int, want: nat): (r: ReadResult)
    ensures |r.data| <= want
  {
    if offset < 0 || source !in w.sources || w.sources[source] !in w.files then ReadResult([], NoSource) else
      var file := w.files[w.sources[source]];
      if offset + want <= |file| then ReadResult(file[offset..offset + want], NoError)
      else ReadResult(file[Min(offset, |file|)..], EOF)
  }

  /** The part of a piece from off on. */
  function ReadPiece(p: Piece, w: World, off: nat, want: nat): (r: ReadResult)
    ensures |r.data| <= want
  {
    if want == 0 || off >= p.length then ReadResult([], NoError)
    else ReadSource(w, p.source, p.offset + off, Min(want, p.length - off))
  }

  /** A missing source stops the read; EOF of the left subtree does not, EOF of the piece does. */
  function JoinReads(l: ReadResult, p: ReadResult, r: ReadResult): ReadResult {
    if l.error == NoSource then l
    else if p.error != NoError then ReadResult(l.data + p.data, p.error)
    else ReadResult(l.data + p.data + r.data, r.error)
  }

  /** The left subtree, the piece and the right subtree in turn, until want bytes are read. */
  function ReadNode(n: Node, w: World, off: nat, want: nat): (r: ReadResult)
    ensures |r.data| <= want
  {
    if n.Nil? || want == 0 then ReadResult([], NoError) else
      var leftBytes := NodeBytes(n.left);
      var l := if off < leftBytes then ReadNode(n.left, w, off, want) else ReadResult([], NoError);
      var p := ReadPiece(n.piece, w, Max(0, off - leftBytes), want - |l.data|);
      var r := ReadNode(n.right, w, Max(0, off - leftBytes - n.piece.length), want - |l.data| - |p.data|);
      JoinReads(l, p, r)
  }

  /** The readable part of [off, off + want) of a sequence. */
  function Window<T>(s: seq<T>, off: nat, want: nat): (r: seq<T>)
    ensures |r| == if off >= |s| then 0 else Min(want, |s| - off)
  {
    s[Min(off, |s|)..Min(off + want, |s|)]
  }

  lemma WindowThree<T>(l: seq<T>, p: seq<T>, r: seq<T>, off: nat, want: nat)
    ensures var a := Window(l, off, want);
            var b := Window(p, Max(0, off - |l|), want - |a|);
            Window(l + p + r, off, want) ==
              a + b + Window(r, Max(0, off - |l| - |p|), want - |a| - |b|)
  {
  }

  lemma ReadableParts(a: seq<Ref>, b: seq<Ref>, w: World)
    ensures Readable(a + b, w) <==> Readable(a, w) && Readable(b, w)
  {
    var ab := a + b;
    assert forall i :: 0 <= i < |a| ==> a[i] == ab[i];
    assert forall i :: 0 <= i < |b| ==> b[i] == ab[|a| + i];
  }

  lemma ReadPieceExact(p: Piece, w: World, off: nat, want: nat)
    requires StoredPiece(p) && Readable(PieceRefs(p), w)
    ensures ReadPiece(p, w, off, want) == ReadResult(Window(Resolve(PieceRefs(p), w), off, want), NoError)
  {
    var refs := PieceRefs(p);
    assert refs[0] == Ref(p.source, p.offset);
    assert refs[p.length - 1] == Ref(p.source, p.offset + p.length - 1);
    var file := w.files[w.sources[p.source]];
    assert Resolve(refs, w) == file[p.offset..p.offset + p.length] by {
      forall i | 0 <= i < p.length
        ensures Resolve(refs, w)[i] == file[p.offset..p.offset + p.length][i]
      {
        assert refs[i] == Ref(p.source, p.offset + i);
      }
    }
  }

  lemma NodeContent(n: Node, w: World)
    requires n.Node? && WellFormed(n)
    ensures WellFormed(n.left) && WellFormed(n.right) && StoredPiece(n.piece)
    ensures NodeBytes(n.left) == |Content(n.left, w)|
    ensures |Resolve(PieceRefs(n.piece), w)| == n.piece.length
    ensures Content(n, w) == Content(n.left, w) + Resolve(PieceRefs(n.piece), w) + Content(n.right, w)
    ensures Readable(Refs(n), w) ==>
              Readable(Refs(n.left), w) && Readable(PieceRefs(n.piece), w) && Readable(Refs(n.right), w)
  {
    NodeRefs(n);
    CachedSums(n.left, w);
    var l, p, r := Refs(n.left), PieceRefs(n.piece), Refs(n.right);
    ReadableParts(l + p, r, w);
    ReadableParts(l, p, w);
    ResolveConcat(l + p, r, w);
    ResolveConcat(l, p, w);
  }

  /** What the left subtree contributes to a read of its parent. */
  function ReadLeft(n: Node, w: World, off: nat, want: nat): ReadResult
    requires n.Node?
  {
    if off < NodeBytes(n.left) then ReadNode(n.left, w, off, want) else ReadResult([], NoError)
  }

  /** One step of a read: the results of the three parts, joined. */
  lemma ReadStep(n: Node, w: World, off: nat, want: nat, l: ReadResult, p: ReadResult, r: ReadResult)
    requires n.Node? && want > 0
    requires |l.data| + |p.data| <= want
    requires l == ReadLeft(n, w, off, want)
    requires p == ReadPiece(n.piece, w, Max(0, off - NodeBytes(n.left)), want - |l.data|)
    requires r == ReadNode(n.right, w, Max(0, off - NodeBytes(n.left) - n.piece.length), want - |l.data| - |p.data|)
    ensures ReadNode(n, w, off, want) == JoinReads(l, p, r)
  {
  }

  lemma ReadLeftExact(n: Node, w: World, off: nat, want: nat, cl: seq<byte>)
    requires n.Node? && NodeBytes(n.left) == |cl|
    requires ReadNode(n.left, w, off, want) == ReadResult(Window(cl, off, want), NoError)
    ensures ReadLeft(n, w, off, want) == ReadResult(Window(cl, off, want), NoError)
  {
    if off >= |cl| {
      assert Window(cl, off, want) == [];
    }
  }

  lemma ReadJoined(n: Node, w: World, off: nat, want: nat, cl: seq<byte>, cp: seq<byte>, cr: seq<byte>)
    requires n.Node? && want > 0 && NodeBytes(n.left) == |cl| && n.piece.length == |cp|
    requires ReadLeft(n, w, off, want) == ReadResult(Window(cl, off, want), NoError)
    requires var a := |Window(cl, off, want)|;
             var b := |Window(cp, Max(0, off - |cl|), want - a)|;
             && ReadPiece(n.piece, w, Max(0, off - |cl|), want - a)
                == ReadResult(Window(cp, Max(0, off - |cl|), want - a), NoError)
             && ReadNode(n.right, w, Max(0, off - |cl| - |cp|), want - a - b)
                == ReadResult(Window(cr, Max(0, off - |cl| - |cp|), want - a - b), NoError)
    ensures ReadNode(n, w, off, want) == ReadResult(Window(cl + cp + cr, off, want), NoError)
  {
    hide ReadNode, ReadPiece;
    var a := Window(cl, off, want);
    var b := Window(cp, Max(0, off - |cl|), want - |a|);
    var c := Window(cr, Max(0, off - |cl| - |cp|), want - |a| - |b|);
    ReadStep(n, w, off, want, ReadResult(a, NoError), ReadResult(b, NoError), ReadResult(c, NoError));
    WindowThree(cl, cp, cr, off, want);
  }

  lemma ReadNothing(n: Node, w: World, off: nat, want: nat)
    requires n.Nil? || want == 0
    ensures ReadNode(n, w, off, want) == ReadResult(Window(Content(n, w), off, want), NoError)
  {
  }

  /** Reading returns exactly the wanted bytes of the document whenever the sources hold them. */
  lemma {:induction false} ReadNodeExact(n: Node, w: World, off: nat, want: nat)
    requires WellFormed(n)
    requires Readable(Refs(n), w)
    ensures ReadNode(n, w, off, want) == ReadResult(Window(Content(n, w), off, want), NoError)
  {
    hide ReadPiece, Resolve, Refs, ReadNode, Window, Content, PieceRefs, WellFormed, Readable, StoredPiece;
    if n.Nil? || want == 0 {
      ReadNothing(n, w, off, want);
    } else {
      NodeContent(n, w);
      var cl, cp, cr := Content(n.left, w), Resolve(PieceRefs(n.piece), w), Content(n.right, w);
      var a := |Window(cl, off, want)|;
      var b := |Window(cp, Max(0, off - |cl|), want - a)|;
      ReadNodeExact(n.left, w, off, want);
      ReadLeftExact(n, w, off, want, cl);
      ReadPieceExact(n.piece, w, Max(0, off - |cl|), want - a);
      ReadNodeExact(n.right, w, Max(0, off - |cl| - |cp|), want - a - b);
      ReadJoined(n, w, off, want, cl, cp, cr);
    }
  }

  /** Snapshot.ReadAt: the part of the document that fits, EOF when that is less than asked for. */
  function ReadAt(s: Snapshot, files: map<nat, seq<byte>>, off: int, want: nat): Result<ReadResult>
    requires WellFormed(s.root)
  {
    if off < 0 then Failure(InvalidRange)
    else if want == 0 then Success(ReadResult([], NoError))
    else if off >= NodeBytes(s.root) then Success(ReadResult([], EOF))
    else
      var r := ReadNode(s.root, World(s.sources, files), off, Min(want, NodeBytes(s.root) - off));
      Success(if r.error == NoError && |r.data| < want then r.(error := EOF) else r)
  }

  datatype Result<+T> = Success(value: T) | Failure(error: Error)

  /** ReadAt tells the truth: for every offset and length, the exact bytes, and EOF exactly at a short read. */
  lemma ReadAtExact(s: Snapshot, files: map<nat, seq<byte>>, off: nat, want: nat)
    requires WellFormed(s.root) && Readable(Refs(s.root), World(s.sources, files))
    ensures var content := Content(s.root, World(s.sources, files));
            ReadAt(s, files, off, want).Success? &&
            var r := ReadAt(s, files, off, want).value;
            r.data == Window(content, off, want)
                && r.error == (if want > 0 && off + want > |content| then EOF else NoError)
  {
    hide ReadNode, Resolve, Refs;
    var w := World(s.sources, files);
    CachedSums(s.root, w);
    if want > 0 && off < |Content(s.root, w)| {
      ReadNodeExact(s.root, w, off, Min(want, NodeBytes(s.root) - off));
    }
  }
}
