/** The bounded history of change maps of a session: a ring that behaves as a list of contiguous maps. */
module ChangeHistories {
  import opened Documents
  import opened ChangeMaps
  import opened Rings

  datatype QueryError = Expired | Unavailable
  datatype Answer = Found(map_: ChangeMap) | Missing(error: QueryError)

  // ---------------------------------------------------------------- the reference: a list of maps

  /** The last contiguous maps, from a base boundary on. */
  datatype Window = Window(baseRevision: nat, baseLength: int, maps: seq<ChangeMap>)

  function CurrentRevision(w: Window): nat {
    if w.maps == [] then w.baseRevision else w.maps[|w.maps| - 1].afterRevision
  }

  function CurrentLength(w: Window): int {
    if w.maps == [] then w.baseLength else w.maps[|w.maps| - 1].afterLength
  }

  /** A map with edits that moves forward in revisions. */
  predicate Forward(m: ChangeMap) {
    m.edits != [] && m.beforeRevision < m.afterRevision
  }

  /** Every map begins at the boundary where the one before it ends, and all but the first lead to a later one. */
  predicate Joined(w: Window)
    decreases |w.maps|
  {
    w.baseLength >= 0 &&
    (w.maps == [] ||
     (var last := w.maps[|w.maps| - 1];
      var before := w.(maps := w.maps[..|w.maps| - 1]);
      && Joined(before) && last.edits != [] && last.afterLength >= 0 && (before.maps != [] ==> Forward(last))
      && last.beforeRevision == CurrentRevision(before) && last.beforeLength == CurrentLength(before)))
  }

  /** A joined list whose first map leads to a later boundary too: its revisions are in order. */
  predicate Contiguous(w: Window) {
    Joined(w) && (w.maps != [] ==> Forward(w.maps[0]))
  }

  function Follows(w: Window, m: ChangeMap): bool {
    m.beforeRevision == CurrentRevision(w) && m.beforeLength == CurrentLength(w)
  }

  /** A map at the end of the list, in place of the oldest one when the list is full. */
  function Pushed(w: Window, m: ChangeMap, limit: nat): Window {
    if |w.maps| == limit && limit > 0 then Window(w.maps[0].afterRevision, w.maps[0].afterLength, w.maps[1..] + [m])
    else w.(maps := w.maps + [m])
  }

  /** Appending to the list: a map that does not continue it starts a new one. */
  function Appended(w: Window, m: ChangeMap, limit: nat): Window {
    if m.edits == [] then
      if Follows(w, m) && m.afterRevision == CurrentRevision(w) && m.afterLength == CurrentLength(w) then w
      else Window(m.afterRevision, m.afterLength, [])
    else if Follows(w, m) && m.afterRevision > m.beforeRevision then Pushed(w, m, limit)
    else Pushed(Window(m.beforeRevision, m.beforeLength, []), m, limit)
  }

  lemma JoinedEmpty(revision: nat, length: int)
    requires length >= 0
    ensures Joined(Window(revision, length, []))
  {
  }

  lemma JoinedSnoc(w: Window, m: ChangeMap)
    requires Joined(w) && Follows(w, m) && m.edits != [] && m.afterLength >= 0 && (w.maps != [] ==> Forward(m))
    ensures Joined(w.(maps := w.maps + [m]))
  {
    assert (w.maps + [m])[..|w.maps|] == w.maps;
  }

  /** Dropping the oldest map moves the base to its end, and leaves only maps that move forward. */
  lemma {:induction false} JoinedTail(w: Window)
    requires Joined(w) && w.maps != []
    ensures var t := Window(w.maps[0].afterRevision, w.maps[0].afterLength, w.maps[1..]);
            Contiguous(t) && CurrentRevision(t) == CurrentRevision(w) && CurrentLength(t) == CurrentLength(w)
    decreases |w.maps|
  {
    var t := Window(w.maps[0].afterRevision, w.maps[0].afterLength, w.maps[1..]);
    if |w.maps| > 1 {
      var init := w.(maps := w.maps[..|w.maps| - 1]);
      JoinedTail(init);
      assert t.maps[..|t.maps| - 1] == init.maps[1..];
    }
  }

  /** What a map must be for the list to take it: any map has these lengths. */
  predicate Sized(m: ChangeMap) {
    m.beforeLength >= 0 && m.afterLength >= 0
  }

  lemma PushedJoined(w: Window, m: ChangeMap, limit: nat)
    requires Joined(w) && Sized(m) && limit > 0 && |w.maps| <= limit
    requires Follows(w, m) && m.edits != [] && (w.maps != [] ==> Forward(m))
    ensures Joined(Pushed(w, m, limit)) && 0 < |Pushed(w, m, limit).maps| <= limit
    ensures CurrentRevision(Pushed(w, m, limit)) == m.afterRevision
            && CurrentLength(Pushed(w, m, limit)) == m.afterLength
    ensures Contiguous(w) && Forward(m) ==> Contiguous(Pushed(w, m, limit))
  {
    hide Joined;
    if |w.maps| == limit {
      JoinedTail(w);
      JoinedSnoc(Window(w.maps[0].afterRevision, w.maps[0].afterLength, w.maps[1..]), m);
    } else {
      JoinedSnoc(w, m);
    }
  }

  lemma AppendedJoined(w: Window, m: ChangeMap, limit: nat)
    requires Joined(w) && Sized(m) && limit > 0 && |w.maps| <= limit
    ensures Joined(Appended(w, m, limit)) && |Appended(w, m, limit).maps| <= limit
    ensures CurrentRevision(Appended(w, m, limit)) == m.afterRevision
            && CurrentLength(Appended(w, m, limit)) == m.afterLength
    ensures Contiguous(w) && (m.edits != [] ==> Forward(m)) ==> Contiguous(Appended(w, m, limit))
  {
    hide Joined, Pushed;
    JoinedEmpty(m.beforeRevision, m.beforeLength);
    JoinedEmpty(m.afterRevision, m.afterLength);
    if m.edits != [] {
      if Follows(w, m) && m.afterRevision > m.beforeRevision {
        PushedJoined(w, m, limit);
      } else {
        PushedJoined(Window(m.beforeRevision, m.beforeLength, []), m, limit);
      }
    }
  }

  // ---------------------------------------------------------------- runs

  /** The list after a run of appends. */
  function AppendedAll(w: Window, changes: seq<ChangeMap>, limit: nat): Window
    decreases |changes|
  {
    if changes == [] then w
    else Appended(AppendedAll(w, changes[..|changes| - 1], limit), changes[|changes| - 1], limit)
  }

  /** The changes that are not empty. */
  function Edited(changes: seq<ChangeMap>): seq<ChangeMap>
    decreases |changes|
  {
    if changes == [] then []
    else
      Edited(changes[..|changes| - 1])
      + (if changes[|changes| - 1].edits == [] then [] else [changes[|changes| - 1]])
  }

  predicate IsSuffix(s: seq<ChangeMap>, of_: seq<ChangeMap>) {
    |s| <= |of_| && s == of_[|of_| - |s|..]
  }

  lemma SuffixGrows(w: Window, m: ChangeMap, limit: nat, edited: seq<ChangeMap>)
    requires IsSuffix(w.maps, edited)
    ensures IsSuffix(Appended(w, m, limit).maps, edited + (if m.edits == [] then [] else [m]))
  {
    if m.edits != [] {
      var maps := Appended(w, m, limit).maps;
      var all := edited + [m];
      assert forall i :: 0 <= i < |maps| ==> maps[i] == all[|all| - |maps| + i];
      assert maps == all[|all| - |maps|..];
    } else {
      assert edited + [] == edited && edited[|edited|..] == [];
    }
  }

  /** Any run of appends, from any boundary: what is retained are the last of the maps with edits, at most the limit,
      joined end to end, up to the boundary of the last map. When every map with edits moves forward, the revisions
      retained are in order. */
  lemma {:induction false} RunOfAppends(revision: nat, length: nat, changes: seq<ChangeMap>, limit: nat)
    requires limit > 0 && forall i :: 0 <= i < |changes| ==> Sized(changes[i])
    ensures var w := AppendedAll(Window(revision, length, []), changes, limit);
            && Joined(w) && |w.maps| <= limit && IsSuffix(w.maps, Edited(changes))
            && CurrentRevision(w) == (if changes == [] then revision else changes[|changes| - 1].afterRevision)
            && CurrentLength(w) == (if changes == [] then length else changes[|changes| - 1].afterLength)
            && ((forall i :: 0 <= i < |changes| && changes[i].edits != [] ==> Forward(changes[i])) ==> Contiguous(w))
    decreases |changes|
  {
    if changes != [] {
      hide Appended, Joined, Follows;
      var w := AppendedAll(Window(revision, length, []), changes[..|changes| - 1], limit);
      RunOfAppends(revision, length, changes[..|changes| - 1], limit);
      AppendedJoined(w, changes[|changes| - 1], limit);
      SuffixGrows(w, changes[|changes| - 1], limit, Edited(changes[..|changes| - 1]));
    }
  }

  // ---------------------------------------------------------------- what a run keeps

  /** The boundary where a run of changes from a boundary has come to. */
  function EndRevision(revision: nat, changes: seq<ChangeMap>): nat {
    if changes == [] then revision else changes[|changes| - 1].afterRevision
  }

  function EndLength(length: int, changes: seq<ChangeMap>): int {
    if changes == [] then length else changes[|changes| - 1].afterLength
  }

  /** The last change does not go on from where the others have come to: it begins elsewhere, it has edits but does not
      move forward, or it has none but moves. */
  predicate BreaksAway(revision: nat, length: int, changes: seq<ChangeMap>)
    requires changes != []
  {
    var m, before := changes[|changes| - 1], changes[..|changes| - 1];
    || m.beforeRevision != EndRevision(revision, before) || m.beforeLength != EndLength(length, before)
    || (if m.edits != [] then m.afterRevision <= m.beforeRevision
        else m.afterRevision != m.beforeRevision || m.afterLength != m.beforeLength)
  }

  /** How many changes lie before the last break of a run: a change with edits that breaks away is the first one behind
      the break, one without edits is the last one before it. */
  function LastBreak(revision: nat, length: int, changes: seq<ChangeMap>): (n: nat)
    ensures n <= |changes|
    decreases |changes|
  {
    if changes == [] then 0
    else if !BreaksAway(revision, length, changes) then LastBreak(revision, length, changes[..|changes| - 1])
    else if changes[|changes| - 1].edits == [] then |changes|
    else |changes| - 1
  }

  /** The last of some maps, at most the limit. */
  function Newest(maps: seq<ChangeMap>, limit: nat): seq<ChangeMap> {
    if |maps| <= limit then maps else maps[|maps| - limit..]
  }

  lemma PushedNewest(w: Window, m: ChangeMap, limit: nat, maps: seq<ChangeMap>)
    requires limit > 0 && w.maps == Newest(maps, limit)
    ensures Pushed(w, m, limit).maps == Newest(maps + [m], limit)
  {
    if |maps| >= limit {
      assert (maps + [m])[|maps| + 1 - limit..] == maps[|maps| - limit..][1..] + [m];
    }
  }

  /** Nothing is forgotten but what lies before the last break, and what exceeds the limit: after any run of appends the
      list holds exactly the last of the maps with edits behind the break. */
  lemma {:induction false} KeepsSinceBreak(revision: nat, length: nat, changes: seq<ChangeMap>, limit: nat)
    requires limit > 0 && forall i :: 0 <= i < |changes| ==> Sized(changes[i])
    ensures AppendedAll(Window(revision, length, []), changes, limit).maps
            == Newest(Edited(changes[LastBreak(revision, length, changes)..]), limit)
    decreases |changes|
  {
    if changes != [] {
      hide Joined, Contiguous, Appended, BreaksAway, Edited, IsSuffix, Newest, LastBreak;
      var n := |changes| - 1;
      var m, before := changes[n], changes[..n];
      var w := AppendedAll(Window(revision, length, []), before, limit);
      RunOfAppends(revision, length, before, limit);
      KeepsSinceBreak(revision, length, before, limit);
      AppendedSinceBreak(revision, length, changes, w, limit, Edited(before[LastBreak(revision, length, before)..]));
      EditedSinceBreak(revision, length, changes);
    }
  }

  lemma EditedSinceBreak(revision: nat, length: int, changes: seq<ChangeMap>)
    requires changes != []
    ensures var before, m := changes[..|changes| - 1], changes[|changes| - 1];
            Edited(changes[LastBreak(revision, length, changes)..])
            == (if BreaksAway(revision, length, changes) then []
                else Edited(before[LastBreak(revision, length, before)..])) + (if m.edits == [] then [] else [m])
  {
    hide BreaksAway, Edited;
    var before, m := changes[..|changes| - 1], changes[|changes| - 1];
    EditedSnoc([], m);
    if !BreaksAway(revision, length, changes) {
      var b := LastBreak(revision, length, before);
      EditedSnoc(before[b..], m);
      assert before[b..] + [m] == changes[b..];
    } else if m.edits != [] {
      assert changes[|changes| - 1..] == [] + [m];
    } else {
      assert changes[|changes|..] == [];
    }
  }

  lemma EditedSnoc(changes: seq<ChangeMap>, m: ChangeMap)
    ensures Edited([]) == [] && Edited(changes + [m]) == Edited(changes) + (if m.edits == [] then [] else [m])
  {
    assert (changes + [m])[..|changes|] == changes;
  }

  /** One more append: behind a break only its own map is left. */
  lemma AppendedSinceBreak(revision: nat, length: int, changes: seq<ChangeMap>, w: Window, limit: nat,
                           maps: seq<ChangeMap>)
    requires changes != [] && limit > 0 && w.maps == Newest(maps, limit)
    requires CurrentRevision(w) == EndRevision(revision, changes[..|changes| - 1])
    requires CurrentLength(w) == EndLength(length, changes[..|changes| - 1])
    ensures var m := changes[|changes| - 1];
            Appended(w, m, limit).maps
            == Newest((if BreaksAway(revision, length, changes) then [] else maps)
                      + (if m.edits == [] then [] else [m]), limit)
  {
    hide CurrentRevision, CurrentLength, EndRevision, EndLength, Newest;
    var m := changes[|changes| - 1];
    FewNewest([], limit);
    PushedNewest(w, m, limit, maps);
    PushedNewest(Window(m.beforeRevision, m.beforeLength, []), m, limit, []);
    var kept := if BreaksAway(revision, length, changes) then [] else maps;
    assert kept + [] == kept;
  }

  lemma FewNewest(maps: seq<ChangeMap>, limit: nat)
    requires |maps| <= limit
    ensures Newest(maps, limit) == maps
  {
  }

  // ---------------------------------------------------------------- boundaries

  /** The revision of boundary k: the base is boundary 0. */
  function BoundaryRevision(w: Window, k: nat): nat
    requires k <= |w.maps|
  {
    if k == 0 then w.baseRevision else w.maps[k - 1].afterRevision
  }

  function BoundaryLength(w: Window, k: nat): int
    requires k <= |w.maps|
  {
    if k == 0 then w.baseLength else w.maps[k - 1].afterLength
  }

  predicate AtBoundaries(w: Window, j: nat, k: nat, fromRevision: nat, toRevision: nat) {
    && j <= |w.maps| && k <= |w.maps|
    && BoundaryRevision(w, j) == fromRevision && BoundaryRevision(w, k) == toRevision
  }

  ghost predicate IsBoundary(w: Window, revision: nat) {
    exists k :: 0 <= k <= |w.maps| && BoundaryRevision(w, k) == revision
  }

  /** The earliest boundary with a revision. */
  ghost predicate FirstAt(w: Window, k: nat, revision: nat) {
    && k <= |w.maps| && BoundaryRevision(w, k) == revision
    && forall i :: 0 <= i < k ==> BoundaryRevision(w, i) != revision
  }

  /** The right answer to a query: the map between the two boundaries, when its edits fit in one map. */
  ghost predicate Right(w: Window, fromRevision: nat, toRevision: nat, r: Answer) {
    forall j: nat, k: nat {:trigger Span(w, j, k)} ::
      AtBoundaries(w, j, k, fromRevision, toRevision) ==>
        r == if |Span(w, j, k).edits| <= MAXIMUM_EDITS then Found(Span(w, j, k)) else Missing(Unavailable)
  }

  /** What the answer is for any list: a revision before the base has expired, one that is no boundary has no map, and
      between a revision and itself nothing changed. */
  ghost predicate Plausible(w: Window, fromRevision: nat, toRevision: nat, r: Answer) {
    && (r == Missing(Expired) <==> fromRevision < w.baseRevision || toRevision < w.baseRevision)
    && (r.Found? ==> IsBoundary(w, fromRevision) && IsBoundary(w, toRevision))
    && (fromRevision == toRevision && fromRevision >= w.baseRevision ==> r.Missing? || r.map_.edits == [])
  }

  /** A first map that does not move forward: between its two ends, which are both retained, no answer of this kind is
      right. (Both directions have the edits of one map, which is within the limit.) */
  lemma BackwardMap(w: Window, r: Answer)
    requires Joined(w) && !Contiguous(w) && |w.maps[0].edits| <= MAXIMUM_EDITS
    requires Plausible(w, w.maps[0].afterRevision, w.baseRevision, r)
    ensures !Right(w, w.maps[0].afterRevision, w.baseRevision, r)
  {
    FirstMap(w);
    var way := Span(w, 1, 0);
    assert AtBoundaries(w, 1, 0, w.maps[0].afterRevision, w.baseRevision);
    assert w.maps[0..1] == [w.maps[0]] && [w.maps[0]][..0] == [];
    assert EditsOf([w.maps[0]]) == w.maps[0].edits;
    SpanReverse(w, 1, 0);
    assert |way.edits| == |w.maps[0].edits| > 0;
  }

  lemma {:induction false} FirstMap(w: Window)
    requires Joined(w) && w.maps != []
    ensures w.maps[0].edits != [] && w.maps[0].beforeRevision == w.baseRevision
    decreases |w.maps|
  {
    if |w.maps| > 1 {
      FirstMap(w.(maps := w.maps[..|w.maps| - 1]));
    }
  }

  lemma {:induction false} MapAt(w: Window, k: nat)
    requires Contiguous(w) && k < |w.maps|
    ensures w.maps[k].beforeRevision == BoundaryRevision(w, k) && w.maps[k].beforeLength == BoundaryLength(w, k)
    ensures w.maps[k].beforeRevision < w.maps[k].afterRevision && w.maps[k].edits != [] && w.maps[k].afterLength >= 0
    decreases |w.maps|
  {
    if k < |w.maps| - 1 {
      MapAt(w.(maps := w.maps[..|w.maps| - 1]), k);
    }
  }

  lemma {:induction false} BoundariesIncrease(w: Window, j: nat, k: nat)
    requires Contiguous(w) && j < k <= |w.maps|
    ensures BoundaryRevision(w, j) < BoundaryRevision(w, k)
    decreases k
  {
    MapAt(w, k - 1);
    if j < k - 1 {
      BoundariesIncrease(w, j, k - 1);
    }
  }

  /** Edits of consecutive maps, in order. */
  function EditsOf(maps: seq<ChangeMap>): seq<Edit>
    decreases |maps|
  {
    if maps == [] then [] else EditsOf(maps[..|maps| - 1]) + maps[|maps| - 1].edits
  }

  /** The map from boundary j to boundary k. */
  function Span(w: Window, j: nat, k: nat): ChangeMap
    requires j <= |w.maps| && k <= |w.maps|
  {
    if j <= k then
      ChangeMap(BoundaryRevision(w, j), BoundaryRevision(w, k), BoundaryLength(w, j), BoundaryLength(w, k),
                EditsOf(w.maps[j..k]))
    else InvertSpec(Span(w, k, j))
  }

  lemma NothingDescribed(m: ChangeMap, doc: seq<byte>)
    requires m.edits == [] && |doc| == m.beforeLength == m.afterLength
    ensures Describes(m, doc, doc)
  {
    assert Shapes([]) == [] && Applicable(doc, []) && Apply(doc, []) == doc;
  }

  lemma SpanStep(w: Window, j: nat, k: nat)
    requires Contiguous(w) && j < k <= |w.maps|
    ensures var front, last := Span(w, j, k - 1), w.maps[k - 1];
            Span(w, j, k) == ChangeMap(front.beforeRevision, last.afterRevision, front.beforeLength, last.afterLength,
                                       front.edits + last.edits)
  {
    assert w.maps[j..k][..k - 1 - j] == w.maps[j..k - 1];
  }

  lemma {:induction false} SpanForward(w: Window, docs: seq<seq<byte>>, j: nat, k: nat)
    requires Contiguous(w) && |docs| == |w.maps| + 1 && j <= k <= |w.maps| && |docs[0]| == w.baseLength
    requires forall i :: 0 <= i < |w.maps| ==> Describes(w.maps[i], docs[i], docs[i + 1])
    ensures Describes(Span(w, j, k), docs[j], docs[k])
    decreases k - j
  {
    hide Describes, Contiguous;
    if j == k {
      DocLength(w, docs, j);
      assert w.maps[j..k] == [];
      NothingDescribed(Span(w, j, k), docs[j]);
    } else {
      SpanForward(w, docs, j, k - 1);
      SpanStep(w, j, k);
      ComposeDescribes(Span(w, j, k - 1), w.maps[k - 1], docs[j], docs[k - 1], docs[k]);
    }
  }

  /** The answer describes what happened between the two boundaries, in either direction. */
  lemma SpanDescribes(w: Window, docs: seq<seq<byte>>, j: nat, k: nat)
    requires Contiguous(w) && |docs| == |w.maps| + 1 && j <= |w.maps| && k <= |w.maps| && |docs[0]| == w.baseLength
    requires forall i :: 0 <= i < |w.maps| ==> Describes(w.maps[i], docs[i], docs[i + 1])
    ensures Describes(Span(w, j, k), docs[j], docs[k])
  {
    hide Describes, Contiguous, InvertSpec;
    if j <= k {
      SpanForward(w, docs, j, k);
    } else {
      SpanForward(w, docs, k, j);
      InvertDescribes(Span(w, k, j), docs[k], docs[j]);
    }
  }

  /** The newest maps of a list, from the boundary where they begin. */
  function Kept(w: Window, limit: nat): Window {
    var d := if |w.maps| <= limit then 0 else |w.maps| - limit;
    Window(BoundaryRevision(w, d), BoundaryLength(w, d), w.maps[d..])
  }

  /** Appending a contiguous list of maps, map by map, keeps exactly the newest ones. */
  lemma {:induction false} ContiguousKept(w: Window, limit: nat)
    requires Contiguous(w) && limit > 0
    ensures AppendedAll(w.(maps := []), w.maps, limit) == Kept(w, limit)
    decreases |w.maps|
  {
    if w.maps == [] {
      assert w.maps[0..] == w.maps;
    } else {
      hide Contiguous, Appended, Kept;
      var before := w.(maps := w.maps[..|w.maps| - 1]);
      ContiguousFront(w);
      ContiguousKept(before, limit);
      KeptStep(w, limit);
      assert before.(maps := []) == w.(maps := []);
    }
  }

  lemma KeptStep(w: Window, limit: nat)
    requires Contiguous(w) && limit > 0 && w.maps != []
    ensures Appended(Kept(w.(maps := w.maps[..|w.maps| - 1]), limit), w.maps[|w.maps| - 1], limit) == Kept(w, limit)
  {
    hide Contiguous;
    var n := |w.maps| - 1;
    var before := Kept(w.(maps := w.maps[..n]), limit);
    MapAt(w, n);
    assert CurrentRevision(before) == BoundaryRevision(w, n) && CurrentLength(before) == BoundaryLength(w, n);
    assert Appended(before, w.maps[n], limit) == Pushed(before, w.maps[n], limit);
    if n >= limit {
      assert w.maps[n + 1 - limit..] == before.maps[1..] + [w.maps[n]];
    } else {
      assert w.maps[0..] == before.maps + [w.maps[n]];
    }
  }

  lemma ContiguousFront(w: Window)
    requires Contiguous(w) && w.maps != []
    ensures Contiguous(w.(maps := w.maps[..|w.maps| - 1]))
  {
  }

  /** Between the boundaries it has kept, the bounded history answers as one without a limit would. */
  lemma KeptAnswers(w: Window, limit: nat, j: nat, k: nat, r: Answer)
    requires Contiguous(w) && limit > 0 && |w.maps| - limit <= j <= |w.maps| && |w.maps| - limit <= k <= |w.maps|
    requires Right(AppendedAll(w.(maps := []), w.maps, limit), BoundaryRevision(w, j), BoundaryRevision(w, k), r)
    ensures r == if |Span(w, j, k).edits| <= MAXIMUM_EDITS then Found(Span(w, j, k)) else Missing(Unavailable)
  {
    hide Contiguous, AppendedAll, Span, Kept, BoundaryRevision;
    ContiguousKept(w, limit);
    var d := if |w.maps| <= limit then 0 else |w.maps| - limit;
    KeptSpan(w, limit, j, k);
    assert AtBoundaries(Kept(w, limit), j - d, k - d, BoundaryRevision(w, j), BoundaryRevision(w, k));
    assert Span(Kept(w, limit), j - d, k - d) == Span(w, j, k);
  }

  lemma KeptSpan(w: Window, limit: nat, j: nat, k: nat)
    requires limit > 0 && |w.maps| - limit <= j <= |w.maps| && |w.maps| - limit <= k <= |w.maps|
    ensures var d := if |w.maps| <= limit then 0 else |w.maps| - limit;
            && |Kept(w, limit).maps| == |w.maps| - d
            && BoundaryRevision(Kept(w, limit), j - d) == BoundaryRevision(w, j)
            && BoundaryRevision(Kept(w, limit), k - d) == BoundaryRevision(w, k)
            && Span(Kept(w, limit), j - d, k - d) == Span(w, j, k)
    decreases if j <= k then 0 else 1
  {
    hide InvertSpec, EditsOf;
    var d := if |w.maps| <= limit then 0 else |w.maps| - limit;
    if j <= k {
      assert Kept(w, limit).maps[j - d..k - d] == w.maps[j..k];
    } else {
      KeptSpan(w, limit, k, j);
    }
  }

  lemma DocLength(w: Window, docs: seq<seq<byte>>, j: nat)
    requires |docs| == |w.maps| + 1 && j <= |w.maps| && |docs[0]| == w.baseLength
    requires forall i :: 0 <= i < |w.maps| ==> Describes(w.maps[i], docs[i], docs[i + 1])
    ensures |docs[j]| == BoundaryLength(w, j)
  {
    if j > 0 {
      assert Describes(w.maps[j - 1], docs[j - 1], docs[j]);
    }
  }

  /** Session limits: at most 4096 maps of at most 256 edits never exceed what one map may hold. */
  lemma {:induction false} SpanFits(maps: seq<ChangeMap>)
    requires |maps| <= 4096 && forall i :: 0 <= i < |maps| ==> |maps[i].edits| <= 256
    ensures |EditsOf(maps)| <= 256 * |maps| <= MAXIMUM_EDITS
    decreases |maps|
  {
    if maps != [] {
      SpanFits(maps[..|maps| - 1]);
    }
  }

  // ---------------------------------------------------------------- the ring

  class ChangeHistory {
    const entries: array<ChangeMap>
    var start: nat
    var count: nat
    var baseRevision: nat
    var baseLength: int
    var currentRevision: nat
    var currentLength: int

    /** The list that the ring stands for. */
    ghost function Value(): Window
      requires entries.Length > 0
      reads this, entries
    {
      Window(baseRevision, baseLength, Ring(entries[..], start, count))
    }

    ghost predicate Valid()
      reads this, entries
    {
      && entries.Length > 0 && start < entries.Length && count <= entries.Length
      && Joined(Value())
      && currentRevision == CurrentRevision(Value()) && currentLength == CurrentLength(Value())
    }

    constructor (limit: nat, revision: nat, length: nat)
      requires limit > 0
      ensures Valid() && fresh(entries) && entries.Length == limit && Value() == Window(revision, length, [])
              && start == 0
    {
      entries := new ChangeMap[limit](_ => ChangeMap(0, 0, 0, 0, []));
      start, count := 0, 0;
      baseRevision, baseLength, currentRevision, currentLength := revision, length, revision, length;
    }

    method Reset(revision: nat, length: nat)
      requires entries.Length > 0
      modifies this, entries
      ensures Valid() && Value() == Window(revision, length, [])
    {
      forall i | 0 <= i < entries.Length {
        entries[i] := ChangeMap(0, 0, 0, 0, []);
      }
      start, count := 0, 0;
      baseRevision, baseLength, currentRevision, currentLength := revision, length, revision, length;
    }

    /** append: the ring does what the list does, with any map. */
    method Append(change: ChangeMap)
      requires Valid() && Sized(change)
      modifies this, entries
      ensures Valid() && Value() == Appended(old(Value()), change, entries.Length)
    {
      hide Ring, Slot, Joined;
      AppendedJoined(Value(), change, entries.Length);
      if |change.edits| == 0 {
        if change.beforeRevision != currentRevision || change.beforeLength != currentLength ||
           change.afterRevision != currentRevision || change.afterLength != currentLength {
          Reset(change.afterRevision, change.afterLength);
        }
        return;
      }
      if change.beforeRevision != currentRevision || change.beforeLength != currentLength ||
         change.afterRevision <= change.beforeRevision {
        Reset(change.beforeRevision, change.beforeLength);
      }
      Push(change);
    }

    /** Takes a continuing map into the ring, in place of the oldest one when it is full. */
    method Push(change: ChangeMap)
      requires Valid() && change.edits != [] && Sized(change) && Follows(Value(), change)
      requires count > 0 ==> Forward(change)
      modifies this, entries
      ensures Valid() && Value() == Pushed(old(Value()), change, entries.Length)
    {
      hide Ring, Slot, Joined, Follows, CurrentRevision, CurrentLength;
      ghost var w := Value();
      ghost var before := entries[..];
      PushedJoined(w, change, entries.Length);
      if count == entries.Length {
        var evicted := Entry(0);
        RingReplace(before, start, change);
        baseRevision, baseLength := evicted.afterRevision, evicted.afterLength;
        entries[start] := change;
        assert entries[..] == before[start := change];
        start := Slot(start, 1, entries.Length);
      } else {
        RingPush(before, start, count, change);
        var index := Slot(start, count, entries.Length);
        entries[index] := change;
        assert entries[..] == before[index := change];
        count := count + 1;
      }
      currentRevision, currentLength := change.afterRevision, change.afterLength;
      assert Value() == Pushed(w, change, entries.Length);
    }

    method Entry(index: nat) returns (m: ChangeMap)
      requires Valid() && index < count
      ensures m == Value().maps[index]
    {
      m := entries[Slot(start, index, entries.Length)];
    }

    /** boundaryLength: which revisions are boundaries, and how long the document was at the first of each. */
    method BoundaryLengthOf(revision: nat) returns (length: int, ok: bool)
      requires Valid()
      ensures ok <==> IsBoundary(Value(), revision)
      ensures forall k :: FirstAt(Value(), k, revision) ==> length == BoundaryLength(Value(), k)
    {
      hide Ring, Slot, Joined;
      ghost var w := Value();
      if revision == baseRevision {
        assert FirstAt(w, 0, revision);
        return baseLength, true;
      }
      var index := 0;
      while index < count
        invariant 0 <= index <= count
        invariant forall k :: 0 <= k <= index ==> BoundaryRevision(w, k) != revision
      {
        var change := Entry(index);
        if revision == change.afterRevision {
          assert FirstAt(w, index + 1, revision);
          return change.afterLength, true;
        }
        assert BoundaryRevision(w, index + 1) != revision;
        index := index + 1;
      }
      return 0, false;
    }

    /** clone: the same list in a ring of its own. */
    method Clone() returns (clone: ChangeHistory)
      requires Valid()
      ensures fresh(clone) && fresh(clone.entries) && clone.Valid() && clone.Value() == Value()
              && clone.entries.Length == entries.Length
    {
      hide Ring, Slot, Joined;
      ghost var maps := Value().maps;
      NonNegativeBase(Value());
      clone := new ChangeHistory(entries.Length, baseRevision, baseLength);
      var index := 0;
      while index < count
        invariant 0 <= index <= count && clone.start == 0 && fresh(clone.entries)
                  && clone.entries.Length == entries.Length
        invariant clone.baseRevision == baseRevision && clone.baseLength == baseLength
        invariant forall i :: 0 <= i < index ==> clone.entries[i] == maps[i]
        modifies clone.entries
      {
        var m := Entry(index);
        clone.entries[index] := m;
        index := index + 1;
      }
      clone.currentRevision, clone.currentLength, clone.count := currentRevision, currentLength, count;
      SameRing(clone.entries[..], maps);
    }

    /** between: the composed map from one boundary to another, or its inverse. When the first map moves forward, the
        answer is right for all revisions, and the error says whether a revision is too old. */
    method Between(fromRevision: nat, toRevision: nat) returns (r: Answer)
      requires Valid()
      ensures Plausible(Value(), fromRevision, toRevision, r)
      ensures Contiguous(Value()) ==> Right(Value(), fromRevision, toRevision, r)
    {
      hide Ring, Slot, Joined, Contiguous, Span;
      ghost var w := Value();
      if fromRevision < baseRevision || toRevision < baseRevision {
        if Contiguous(w) {
          BoundariesNotBefore(w);
        }
        return Missing(Expired);
      }
      if fromRevision > currentRevision || toRevision > currentRevision {
        if Contiguous(w) {
          BoundariesNotAfter(w);
        }
        return Missing(Unavailable);
      }
      var fromLength, fromOK := BoundaryLengthOf(fromRevision);
      var _, toOK := BoundaryLengthOf(toRevision);
      if !fromOK || !toOK {
        return Missing(Unavailable);
      }
      ghost var j: nat :| j <= |w.maps| && BoundaryRevision(w, j) == fromRevision;
      ghost var k: nat :| k <= |w.maps| && BoundaryRevision(w, k) == toRevision;
      if Contiguous(w) {
        OnlyBoundary(w, j);
        OnlyBoundary(w, k);
      }
      if fromRevision == toRevision {
        SpanNothing(w, j);
        return Found(ChangeMap(fromRevision, fromRevision, fromLength, fromLength, []));
      }
      if fromRevision < toRevision {
        if Contiguous(w) {
          BoundaryOrder(w, j, k);
        }
        r := Compose(fromRevision, toRevision, j, k);
      } else {
        if Contiguous(w) {
          BoundaryOrder(w, k, j);
          SpanReverse(w, j, k);
        }
        r := Compose(toRevision, fromRevision, k, j);
        if r.Found? {
          var inverse := Invert(r.map_);
          r := Found(inverse);
        }
      }
    }

    /** The chain of maps between two boundaries, composed. */
    method Compose(low: nat, high: nat, ghost j: nat, ghost k: nat) returns (r: Answer)
      requires Valid() && low < high && AtBoundaries(Value(), j, k, low, high)
      ensures r != Missing(Expired)
      ensures Contiguous(Value()) ==>
                r == if |Span(Value(), j, k).edits| <= MAXIMUM_EDITS then Found(Span(Value(), j, k))
                    else Missing(Unavailable)
    {
      hide Ring, Slot, Joined, Contiguous;
      ghost var w := Value();
      if Contiguous(w) {
        BoundaryOrder(w, j, k);
        OnlyBoundary(w, j);
      }
      var lowLength, _ := BoundaryLengthOf(low);
      var cursor := low;
      var chain: seq<ChangeMap> := [];
      var index := 0;
      while index < count && cursor < high
        invariant 0 <= index <= count
        invariant Contiguous(w) ==> if index <= j then cursor == low && chain == []
                                    else index <= k && cursor == BoundaryRevision(w, index) && chain == w.maps[j..index]
      {
        var change := Entry(index);
        if Contiguous(w) {
          ChainStep(w, j, k, index);
          assert index >= j ==> w.maps[j..index + 1] == w.maps[j..index] + [change];
        }
        if change.afterRevision > cursor {
          if change.beforeRevision != cursor || change.afterRevision > high {
            return Missing(Unavailable);
          }
          chain := chain + [change];
          cursor := change.afterRevision;
        }
        index := index + 1;
      }
      var identity := ChangeMap(low, low, lowLength, lowLength, []);
      if Contiguous(w) {
        ChainEnd(w, j, k, index, cursor);
        ChainAdjacent(w, j, k, identity);
      }
      var composed := ComposeAll(identity, chain);
      r := if composed.Success? then Found(composed.value) else Missing(Unavailable);
    }
  }

  /** One map of the chain: it is passed over before the lower boundary, and taken from there on. */
  lemma ChainStep(w: Window, j: nat, k: nat, index: nat)
    requires Contiguous(w) && j < k <= |w.maps| && index < |w.maps|
    ensures w.maps[index].beforeRevision == BoundaryRevision(w, index)
    ensures w.maps[index].afterRevision == BoundaryRevision(w, index + 1) > BoundaryRevision(w, index)
    ensures index < j ==> BoundaryRevision(w, index + 1) <= BoundaryRevision(w, j)
    ensures BoundaryRevision(w, index) < BoundaryRevision(w, k) ==>
              index < k && BoundaryRevision(w, index + 1) <= BoundaryRevision(w, k)
  {
    hide Contiguous;
    MapAt(w, index);
    if index < j {
      BoundaryRevisionOrder(w, index + 1, j);
    }
    if BoundaryRevision(w, index) < BoundaryRevision(w, k) {
      BoundaryOrder(w, index, k);
      BoundaryRevisionOrder(w, index + 1, k);
    }
  }

  lemma BoundariesNotBefore(w: Window)
    requires Contiguous(w)
    ensures forall k :: 0 <= k <= |w.maps| ==> BoundaryRevision(w, k) >= w.baseRevision
  {
    forall k | 0 < k <= |w.maps|
      ensures BoundaryRevision(w, k) >= w.baseRevision
    {
      BoundariesIncrease(w, 0, k);
    }
  }

  lemma BoundariesNotAfter(w: Window)
    requires Contiguous(w)
    ensures forall k :: 0 <= k <= |w.maps| ==> BoundaryRevision(w, k) <= CurrentRevision(w)
  {
    forall k | 0 <= k < |w.maps|
      ensures BoundaryRevision(w, k) <= CurrentRevision(w)
    {
      BoundariesIncrease(w, k, |w.maps|);
    }
  }

  lemma BoundaryRevisionOrder(w: Window, j: nat, k: nat)
    requires Contiguous(w) && j <= k <= |w.maps|
    ensures BoundaryRevision(w, j) <= BoundaryRevision(w, k)
  {
    if j < k {
      BoundariesIncrease(w, j, k);
    }
  }

  lemma BoundaryOrder(w: Window, j: nat, k: nat)
    requires Contiguous(w) && j <= |w.maps| && k <= |w.maps| && BoundaryRevision(w, j) < BoundaryRevision(w, k)
    ensures j < k
  {
    if k < j {
      BoundariesIncrease(w, k, j);
    }
  }

  lemma SpanNothing(w: Window, j: nat)
    requires j <= |w.maps|
    ensures Span(w, j, j) == ChangeMap(BoundaryRevision(w, j), BoundaryRevision(w, j), BoundaryLength(w, j),
                                       BoundaryLength(w, j), [])
  {
    assert w.maps[j..j] == [];
  }

  lemma SpanReverse(w: Window, j: nat, k: nat)
    requires k < j <= |w.maps|
    ensures Span(w, j, k) == InvertSpec(Span(w, k, j)) && |Span(w, j, k).edits| == |Span(w, k, j).edits|
  {
  }

  lemma ChainEnd(w: Window, j: nat, k: nat, index: nat, cursor: nat)
    requires Contiguous(w) && j < k <= |w.maps| && index <= |w.maps|
    requires index <= j ==> cursor == BoundaryRevision(w, j)
    requires j < index ==> index <= k && cursor == BoundaryRevision(w, index)
    requires index == |w.maps| || cursor >= BoundaryRevision(w, k)
    ensures index == k
  {
    hide Contiguous;
    BoundariesIncrease(w, j, k);
    if j < index < k {
      BoundariesIncrease(w, index, k);
    }
  }

  lemma {:induction false} ChainAdjacent(w: Window, j: nat, k: nat, identity: ChangeMap)
    requires Contiguous(w) && j <= k <= |w.maps|
    requires identity == ChangeMap(BoundaryRevision(w, j), BoundaryRevision(w, j), BoundaryLength(w, j),
                                   BoundaryLength(w, j), [])
    ensures Adjacent(identity, w.maps[j..k]) && AllEdits(identity, w.maps[j..k]) == EditsOf(w.maps[j..k])
    ensures Last(identity, w.maps[j..k]).afterRevision == BoundaryRevision(w, k)
    ensures Last(identity, w.maps[j..k]).afterLength == BoundaryLength(w, k)
    decreases k - j
  {
    hide Contiguous;
    if j < k {
      ChainAdjacent(w, j, k - 1, identity);
      MapAt(w, k - 1);
      assert w.maps[j..k][..k - 1 - j] == w.maps[j..k - 1];
    } else {
      assert w.maps[j..k] == [];
    }
  }

  lemma NonNegativeBase(w: Window)
    requires Joined(w)
    ensures w.baseLength >= 0
  {
  }

  lemma SameRing(buffer: seq<ChangeMap>, maps: seq<ChangeMap>)
    requires |maps| <= |buffer| && |buffer| > 0
    requires forall i :: 0 <= i < |maps| ==> buffer[i] == maps[i]
    ensures Ring(buffer, 0, |maps|) == maps
  {
    forall i | 0 <= i < |maps|
      ensures Ring(buffer, 0, |maps|)[i] == maps[i]
    {
      SlotIs(0, i, |buffer|);
    }
  }

  lemma OnlyBoundary(w: Window, k: nat)
    requires Contiguous(w) && k <= |w.maps|
    ensures forall j :: 0 <= j <= |w.maps| && BoundaryRevision(w, j) == BoundaryRevision(w, k) ==> j == k
  {
    forall j | 0 <= j <= |w.maps| && j != k
      ensures BoundaryRevision(w, j) != BoundaryRevision(w, k)
    {
      if j < k {
        BoundariesIncrease(w, j, k);
      } else {
        BoundariesIncrease(w, k, j);
      }
    }
  }
}
