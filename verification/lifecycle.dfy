/** Resources of a session: source files that live as long as their readers, and the token that serializes saves. */
module Lifecycle {

  // ---------------------------------------------------------------- one generation of source files

  /** A generation: the references to it, whether the session has given it up, and its files. */
  datatype Gen = Gen(refs: int, retired: bool, removeJournal: bool, open: bool, closes: nat)

  function CloseIfUnused(g: Gen): Gen {
    if !g.retired || g.refs != 0 then g
    else g.(open := false, closes := g.closes + (if g.open then 1 else 0))
  }

  function Acquired(g: Gen): Gen {
    g.(refs := g.refs + 1)
  }

  function Retired(g: Gen, removeJournal: bool): Gen {
    CloseIfUnused(g.(removeJournal := g.removeJournal || removeJournal, retired := true,
                     refs := if g.retired then g.refs else g.refs - 1))
  }

  function Released(g: Gen): Gen {
    CloseIfUnused(g.(refs := if g.refs > 0 then g.refs - 1 else g.refs))
  }

  const NewGen := Gen(1, false, false, true, 0)

  /** sourceGeneration: the files are closed by whoever drops the last reference after retirement. */
  class SourceGeneration {
    var refs: int
    var retired: bool
    var removeJournal: bool
    var journalOpen: bool
    var baseOpen: bool
    ghost var closes: nat

    ghost predicate Valid()
      reads this
    {
      journalOpen == baseOpen
    }

    ghost function Value(): Gen
      reads this
    {
      Gen(refs, retired, removeJournal, baseOpen, closes)
    }

    constructor ()
      ensures Valid() && Value() == NewGen
    {
      refs, retired, removeJournal, journalOpen, baseOpen, closes := 1, false, false, true, true, 0;
    }

    method CloseIfUnusedLocked()
      requires Valid()
      modifies this`journalOpen, this`baseOpen, this`closes
      ensures Valid() && Value() == CloseIfUnused(old(Value()))
    {
      if !retired || refs != 0 {
        return;
      }
      if baseOpen {
        closes := closes + 1;
      }
      if journalOpen {
        journalOpen := false;
      }
      if baseOpen {
        baseOpen := false;
      }
    }

    method Acquire()
      requires Valid()
      modifies this`refs
      ensures Valid() && Value() == Acquired(old(Value()))
    {
      refs := refs + 1;
    }

    method Retire(remove: bool)
      requires Valid()
      modifies this
      ensures Valid() && Value() == Retired(old(Value()), remove)
    {
      removeJournal := removeJournal || remove;
      if !retired {
        retired := true;
        refs := refs - 1;
      }
      CloseIfUnusedLocked();
    }

    method Release()
      requires Valid()
      modifies this
      ensures Valid() && Value() == Released(old(Value()))
    {
      if refs > 0 {
        refs := refs - 1;
      }
      CloseIfUnusedLocked();
    }
  }

  // ---------------------------------------------------------------- all generations and leases of a session

  /** A lease: host leases are counted against a limit until the first half of their closing. */
  datatype Lease = Lease(gen: nat, counted: bool, open: bool)

  /** The save token is in the gate, or with exactly one of its takers. */
  datatype SaveStage = Waiting | Taken | Active | Returning

  datatype System = System(
    gens: seq<Gen>, leases: seq<Lease>, active: int, maximum: nat, closing: bool,
    gate: nat, saves: map<nat, SaveStage>, waiting: int, saveActive: bool, barrier: bool, closed: bool)

  datatype Step =
    | Snapshot
    | SaveSnapshot(save: nat)
    | Uncount(lease: nat)
    | CloseLease(lease: nat)
    | BeginSave(save: nat)
    | GiveUp(save: nat)
    | TakeToken(save: nat)
    | CheckToken(save: nat, cancelled: bool)
    | Install(save: nat)
    | EndSave(save: nat)
    | ReturnToken(save: nat)
    | RequestClose
    | CloseTakes
    | CloseRetires
    | CloseReturns

  function Current(s: System): nat
    requires s.gens != []
  {
    |s.gens| - 1
  }

  function OpenOn(leases: seq<Lease>, g: nat): nat
    decreases |leases|
  {
    if leases == [] then 0
    else
      OpenOn(leases[..|leases| - 1], g)
      + (if leases[|leases| - 1].open && leases[|leases| - 1].gen == g then 1 else 0)
  }

  function Counted(leases: seq<Lease>): nat
    decreases |leases|
  {
    if leases == [] then 0 else Counted(leases[..|leases| - 1]) + (if leases[|leases| - 1].counted then 1 else 0)
  }

  /** The saves that hold the token, and those that are still waiting for the check behind it. */
  function Holders(s: System): set<nat> {
    set i | i in s.saves && s.saves[i] != Waiting
  }

  function Unchecked(s: System): set<nat> {
    set i | i in s.saves && (s.saves[i] == Waiting || s.saves[i] == Taken)
  }

  function Saving(s: System): set<nat> {
    set i | i in s.saves && s.saves[i] == Active
  }

  predicate Enabled(s: System, a: Step)
    requires s.gens != []
  {
    match a
    case Snapshot => !s.closing && s.active < s.maximum
    case SaveSnapshot(i) => i in s.saves && s.saves[i] == Active && !s.closing
    case Uncount(l) => l < |s.leases| && s.leases[l].counted
    case CloseLease(l) => l < |s.leases| && s.leases[l].open && !s.leases[l].counted
    case BeginSave(i) => i !in s.saves && !s.closing
    case GiveUp(i) => i in s.saves && s.saves[i] == Waiting
    case TakeToken(i) => i in s.saves && s.saves[i] == Waiting && s.gate > 0
    case CheckToken(i, _) => i in s.saves && s.saves[i] == Taken
    case Install(i) => i in s.saves && s.saves[i] == Active
    case EndSave(i) => i in s.saves && s.saves[i] == Active
    case ReturnToken(i) => i in s.saves && s.saves[i] == Returning
    case RequestClose => true
    case CloseTakes => s.closing && !s.barrier && !s.closed && s.gate > 0
    case CloseRetires => s.barrier
    case CloseReturns => s.barrier && s.gens[Current(s)].retired && s.gens[Current(s)].refs == 0
  }

  function Update(s: System, g: nat, gen: Gen): System
    requires g < |s.gens|
  {
    s.(gens := s.gens[g := gen])
  }

  function Next(s: System, a: Step): System
    requires s.gens != [] && Enabled(s, a)
  {
    match a
    case Snapshot =>
      Update(s, Current(s), Acquired(s.gens[Current(s)])).(leases := s.leases + [Lease(Current(s), true, true)],
                                                           active := s.active + 1)
    case SaveSnapshot(_) =>
      Update(s, Current(s), Acquired(s.gens[Current(s)])).(leases := s.leases + [Lease(Current(s), false, true)])
    case Uncount(l) =>
      s.(leases := s.leases[l := s.leases[l].(counted := false)], active := if s.active > 0 then s.active - 1
         else s.active)
    case CloseLease(l) =>
      var t := s.(leases := s.leases[l := s.leases[l].(open := false)]);
      if s.leases[l].gen < |s.gens| then Update(t, s.leases[l].gen, Released(s.gens[s.leases[l].gen])) else t
    case BeginSave(i) => s.(saves := s.saves[i := Waiting], waiting := s.waiting + 1)
    case GiveUp(i) => s.(saves := s.saves - {i}, waiting := s.waiting - 1)
    case TakeToken(i) => s.(saves := s.saves[i := Taken], gate := s.gate - 1)
    case CheckToken(i, cancelled) =>
      if s.closing || cancelled then s.(saves := s.saves[i := Returning], waiting := s.waiting - 1)
      else s.(saves := s.saves[i := Active], waiting := s.waiting - 1, saveActive := true)
    case Install(_) => s.(gens := s.gens[Current(s) := Retired(s.gens[Current(s)], true)] + [NewGen])
    case EndSave(i) => s.(saves := s.saves[i := Returning], saveActive := false)
    case ReturnToken(i) => s.(saves := s.saves - {i}, gate := s.gate + 1)
    case RequestClose => s.(closing := true)
    case CloseTakes => s.(gate := s.gate - 1, barrier := true)
    case CloseRetires => Update(s, Current(s), Retired(s.gens[Current(s)], false))
    case CloseReturns => s.(barrier := false, closed := true, gate := s.gate + 1)
  }

  /** A generation is referred to by the session until it is retired, and by its open leases; its files are open until
      both are gone, and are closed once. */
  predicate GenValid(s: System, g: nat)
    requires g < |s.gens|
  {
    var gen := s.gens[g];
    && gen.refs == (if gen.retired then 0 else 1) + OpenOn(s.leases, g)
    && (gen.open <==> !gen.retired || gen.refs > 0)
    && gen.closes == (if gen.open then 0 else 1)
    && (g < |s.gens| - 1 ==> gen.retired)
  }

  /** One token: in the gate, with one save, or with the closing session. */
  predicate TokenValid(s: System) {
    && s.gate + |Holders(s)| + (if s.barrier then 1 else 0) == 1
    && s.waiting == |Unchecked(s)|
    && (s.saveActive <==> Saving(s) != {})
  }

  predicate LeasesValid(s: System) {
    && s.active == Counted(s.leases) <= s.maximum
    && (forall l :: 0 <= l < |s.leases| ==> s.leases[l].gen < |s.gens| && (s.leases[l].counted ==> s.leases[l].open))
  }

  predicate Valid(s: System) {
    && s.gens != [] && LeasesValid(s) && TokenValid(s)
    && (forall g :: 0 <= g < |s.gens| ==> GenValid(s, g))
    && (s.barrier || s.closed ==> s.closing)
    && (s.gens[|s.gens| - 1].retired ==> s.barrier || s.closed)
    && (s.closed ==> !s.saveActive)
  }

  // ---------------------------------------------------------------- counting

  lemma {:induction false} OpenUpdate(leases: seq<Lease>, l: nat, g: nat, lease: Lease)
    requires l < |leases|
    ensures OpenOn(leases[l := lease], g)
         == OpenOn(leases, g) - (if leases[l].open && leases[l].gen == g then 1 else 0)
             + (if lease.open && lease.gen == g then 1 else 0)
    decreases |leases|
  {
    var init := leases[..|leases| - 1];
    if l < |leases| - 1 {
      OpenUpdate(init, l, g, lease);
      assert leases[l := lease][..|leases| - 1] == init[l := lease];
    } else {
      assert leases[l := lease][..|leases| - 1] == init;
    }
  }

  lemma {:induction false} CountedUpdate(leases: seq<Lease>, l: nat, lease: Lease)
    requires l < |leases|
    ensures Counted(leases[l := lease])
            == Counted(leases) - (if leases[l].counted then 1 else 0) + (if lease.counted then 1 else 0)
    decreases |leases|
  {
    var init := leases[..|leases| - 1];
    if l < |leases| - 1 {
      CountedUpdate(init, l, lease);
      assert leases[l := lease][..|leases| - 1] == init[l := lease];
    } else {
      assert leases[l := lease][..|leases| - 1] == init;
    }
  }

  lemma {:induction false} OpenCounts(leases: seq<Lease>, l: nat, g: nat)
    requires l < |leases| && leases[l].open && leases[l].gen == g
    ensures OpenOn(leases, g) > 0
    decreases |leases|
  {
    if l < |leases| - 1 {
      OpenCounts(leases[..|leases| - 1], l, g);
    }
  }

  lemma {:induction false} CountedCounts(leases: seq<Lease>, l: nat)
    requires l < |leases| && leases[l].counted
    ensures Counted(leases) > 0
    decreases |leases|
  {
    if l < |leases| - 1 {
      CountedCounts(leases[..|leases| - 1], l);
    }
  }

  lemma {:induction false} NothingOpen(leases: seq<Lease>, g: nat)
    requires forall l :: 0 <= l < |leases| ==> leases[l].gen < g
    ensures OpenOn(leases, g) == 0
    decreases |leases|
  {
    if leases != [] {
      NothingOpen(leases[..|leases| - 1], g);
    }
  }

  // ---------------------------------------------------------------- every step keeps it

  /** The part of the state that the token protocol does not touch, and the other way round. */
  predicate SameResources(s: System, t: System) {
    t.gens == s.gens && t.leases == s.leases && t.active == s.active && t.maximum == s.maximum
  }

  predicate SameToken(s: System, t: System) {
    t.gate == s.gate && t.saves == s.saves && t.waiting == s.waiting && t.saveActive == s.saveActive
        && t.barrier == s.barrier &&
    t.closing == s.closing && t.closed == s.closed
  }

  lemma ResourcesKept(s: System, t: System)
    requires Valid(s) && SameResources(s, t)
    ensures t.gens != [] && LeasesValid(t) && forall g :: 0 <= g < |t.gens| ==> GenValid(t, g)
  {
    forall g | 0 <= g < |t.gens|
      ensures GenValid(t, g)
    {
      assert GenValid(s, g);
    }
  }

  lemma TokenKept(s: System, t: System)
    requires TokenValid(s) && SameToken(s, t)
    ensures TokenValid(t)
  {
    assert Holders(t) == Holders(s) && Unchecked(t) == Unchecked(s) && Saving(t) == Saving(s);
  }

  /** How a change of one save's stage changes the holders. */
  lemma StageChange(s: System, t: System, i: nat)
    requires t.saves.Keys == s.saves.Keys + {i} && forall j :: j in s.saves && j != i ==> t.saves[j] == s.saves[j]
    ensures Holders(t) == if t.saves[i] == Waiting then Holders(s) - {i} else Holders(s) + {i}
    ensures Unchecked(t) == if t.saves[i] == Waiting || t.saves[i] == Taken then Unchecked(s) + {i}
            else Unchecked(s) - {i}
    ensures Saving(t) == if t.saves[i] == Active then Saving(s) + {i} else Saving(s) - {i}
  {
    assert forall j :: j in t.saves && j != i ==> j in s.saves;
    forall j
      ensures j in Holders(t) <==> if j == i then t.saves[i] != Waiting else j in Holders(s)
    {
    }
  }

  lemma StageNew(s: System, t: System, i: nat)
    requires i !in s.saves && t.saves == s.saves[i := Waiting]
    ensures Holders(t) == Holders(s) && Unchecked(t) == Unchecked(s) + {i} && i !in Unchecked(s)
            && Saving(t) == Saving(s)
  {
  }

  lemma StageGone(s: System, t: System, i: nat)
    requires i in s.saves && t.saves == s.saves - {i}
    ensures Holders(t) == Holders(s) - {i} && Unchecked(t) == Unchecked(s) - {i} && Saving(t) == Saving(s) - {i}
  {
  }

  /** Somebody who holds the token is the only one. */
  lemma OnlyHolder(s: System, i: nat)
    requires TokenValid(s) && i in Holders(s)
    ensures Holders(s) == {i} && s.gate == 0 && !s.barrier
  {
    assert |Holders(s) - {i}| == |Holders(s)| - 1;
    assert Holders(s) - {i} == {};
  }

  predicate TokenStep(a: Step) {
    a.BeginSave? || a.GiveUp? || a.TakeToken? || a.CheckToken? || a.EndSave? || a.ReturnToken? || a.RequestClose?
        || a.CloseTakes? || a.CloseReturns?
  }

  /** What the token protocol keeps besides the token itself. */
  predicate TokenResult(s: System, t: System) {
    && SameResources(s, t) && TokenValid(t)
    && (t.barrier || t.closed ==> t.closing) && (s.barrier ==> t.barrier || t.closed) && (s.closed ==> t.closed)
    && (t.closed ==> !t.saveActive)
  }

  predicate TokenReady(s: System) {
    TokenValid(s) && (s.barrier || s.closed ==> s.closing) && (s.closed ==> !s.saveActive)
  }

  /** A save that leaves, from the queue or with the token. */
  lemma StageLeaves(s: System, t: System, i: nat)
    requires i in s.saves && t.saves == s.saves - {i} && (s.saves[i] == Waiting || s.saves[i] == Returning)
    ensures Saving(t) == Saving(s)
    ensures |Holders(t)| == |Holders(s)| - (if s.saves[i] == Returning then 1 else 0)
    ensures |Unchecked(t)| == |Unchecked(s)| - (if s.saves[i] == Waiting then 1 else 0)
  {
    StageGone(s, t, i);
    StageFacts(s, i);
    hide Holders, Unchecked, Saving;
    assert Saving(s) - {i} == Saving(s);
    if s.saves[i] == Waiting {
      assert Holders(s) - {i} == Holders(s);
    } else {
      assert Unchecked(s) - {i} == Unchecked(s);
    }
  }

  lemma StageFacts(s: System, i: nat)
    requires i in s.saves
    ensures i in Holders(s) <==> s.saves[i] != Waiting
    ensures i in Unchecked(s) <==> s.saves[i] == Waiting || s.saves[i] == Taken
    ensures i in Saving(s) <==> s.saves[i] == Active
    ensures Saving(s) <= Holders(s)
  {
  }

  lemma BeginStep(s: System, i: nat)
    requires s.gens != [] && TokenReady(s) && Enabled(s, BeginSave(i))
    ensures TokenResult(s, Next(s, BeginSave(i)))
  {
    hide Holders, Unchecked, Saving;
    StageNew(s, Next(s, BeginSave(i)), i);
  }

  lemma GiveUpStep(s: System, i: nat)
    requires s.gens != [] && TokenReady(s) && Enabled(s, GiveUp(i))
    ensures TokenResult(s, Next(s, GiveUp(i)))
  {
    hide Holders, Unchecked, Saving;
    StageLeaves(s, Next(s, GiveUp(i)), i);
  }

  lemma TakeStep(s: System, i: nat)
    requires s.gens != [] && TokenReady(s) && Enabled(s, TakeToken(i))
    ensures TokenResult(s, Next(s, TakeToken(i)))
  {
    hide Holders, Unchecked, Saving;
    StageFacts(s, i);
    StageChange(s, Next(s, TakeToken(i)), i);
    assert Unchecked(s) + {i} == Unchecked(s) && Saving(s) - {i} == Saving(s);
  }

  lemma CheckStep(s: System, i: nat, cancelled: bool)
    requires s.gens != [] && TokenReady(s) && Enabled(s, CheckToken(i, cancelled))
    ensures TokenResult(s, Next(s, CheckToken(i, cancelled)))
  {
    hide Holders, Unchecked, Saving;
    StageFacts(s, i);
    OnlyHolder(s, i);
    StageChange(s, Next(s, CheckToken(i, cancelled)), i);
    assert Holders(s) + {i} == Holders(s) && Saving(s) == {};
  }

  lemma EndMoves(s: System, t: System, i: nat)
    requires TokenValid(s) && i in s.saves && s.saves[i] == Active && t.saves == s.saves[i := Returning]
    ensures Holders(t) == Holders(s) && Unchecked(t) == Unchecked(s) && Saving(t) == {}
  {
    StageFacts(s, i);
    OnlyHolder(s, i);
    StageChange(s, t, i);
    hide Holders, Unchecked, Saving;
    assert Unchecked(s) - {i} == Unchecked(s) && Holders(s) + {i} == Holders(s) && Saving(s) - {i} == {};
  }

  lemma EndStep(s: System, i: nat)
    requires s.gens != [] && TokenReady(s) && Enabled(s, EndSave(i))
    ensures TokenResult(s, Next(s, EndSave(i)))
  {
    hide Holders, Unchecked, Saving;
    EndMoves(s, Next(s, EndSave(i)), i);
  }

  lemma ReturnStep(s: System, i: nat)
    requires s.gens != [] && TokenReady(s) && Enabled(s, ReturnToken(i))
    ensures TokenResult(s, Next(s, ReturnToken(i)))
  {
    hide Holders, Unchecked, Saving;
    StageFacts(s, i);
    OnlyHolder(s, i);
    StageLeaves(s, Next(s, ReturnToken(i)), i);
  }

  lemma CloseSteps(s: System, a: Step)
    requires s.gens != [] && TokenReady(s) && Enabled(s, a) && (a.RequestClose? || a.CloseTakes? || a.CloseReturns?)
    ensures TokenResult(s, Next(s, a))
  {
    var t := Next(s, a);
    assert Holders(t) == Holders(s) && Unchecked(t) == Unchecked(s) && Saving(t) == Saving(s) <= Holders(s);
    hide Holders, Unchecked, Saving;
    if a.CloseReturns? {
      assert Holders(s) == {};
    }
  }

  lemma TokenSteps(s: System, a: Step)
    requires s.gens != [] && TokenReady(s) && Enabled(s, a) && TokenStep(a)
    ensures TokenResult(s, Next(s, a))
  {
    hide TokenReady, TokenResult;
    match a
    case BeginSave(i) => BeginStep(s, i);
    case GiveUp(i) => GiveUpStep(s, i);
    case TakeToken(i) => TakeStep(s, i);
    case CheckToken(i, cancelled) => CheckStep(s, i, cancelled);
    case EndSave(i) => EndStep(s, i);
    case ReturnToken(i) => ReturnStep(s, i);
    case RequestClose => CloseSteps(s, a);
    case CloseTakes => CloseSteps(s, a);
    case CloseReturns => CloseSteps(s, a);
  }

  // ---------------------------------------------------------------- leases and generations

  lemma GensOf(s: System, g: nat)
    requires Valid(s) && g < |s.gens|
    ensures GenValid(s, g)
  {
  }

  /** A reader of the current generation is admitted only while the session has not given it up. */
  lemma CurrentOpen(s: System)
    requires Valid(s) && (!s.closing || (!s.barrier && !s.closed))
    ensures !s.gens[Current(s)].retired
  {
  }

  /** Acquiring the current generation for one more lease. */
  lemma AcquireStep(s: System, lease: Lease, t: System)
    requires Valid(s) && !s.gens[Current(s)].retired && lease.open && lease.gen == Current(s)
    requires t == Update(s, Current(s), Acquired(s.gens[Current(s)]))
                    .(leases := s.leases + [lease], active := s.active + (if lease.counted then 1 else 0))
    requires lease.counted ==> s.active < s.maximum
    ensures LeasesValid(t) && forall g :: 0 <= g < |t.gens| ==> GenValid(t, g)
  {
    assert t.leases[..|s.leases|] == s.leases;
    forall g | 0 <= g < |t.gens|
      ensures GenValid(t, g)
    {
      GensOf(s, g);
    }
  }

  lemma CloseLeaseStep(s: System, l: nat)
    requires Valid(s) && Enabled(s, CloseLease(l))
    ensures var t := Next(s, CloseLease(l));
            LeasesValid(t) && forall g :: 0 <= g < |t.gens| ==> GenValid(t, g)
  {
    hide TokenValid;
    var t := Next(s, CloseLease(l));
    var closed := s.leases[l].(open := false);
    CountedUpdate(s.leases, l, closed);
    OpenCounts(s.leases, l, s.leases[l].gen);
    forall g | 0 <= g < |t.gens|
      ensures GenValid(t, g)
    {
      GensOf(s, g);
      OpenUpdate(s.leases, l, g, closed);
    }
  }

  lemma UncountStep(s: System, l: nat)
    requires Valid(s) && Enabled(s, Uncount(l))
    ensures var t := Next(s, Uncount(l));
            LeasesValid(t) && forall g :: 0 <= g < |t.gens| ==> GenValid(t, g)
  {
    hide TokenValid;
    var t := Next(s, Uncount(l));
    var lease := s.leases[l].(counted := false);
    CountedUpdate(s.leases, l, lease);
    CountedCounts(s.leases, l);
    forall g | 0 <= g < |t.gens|
      ensures GenValid(t, g)
    {
      GensOf(s, g);
      OpenUpdate(s.leases, l, g, lease);
    }
  }

  lemma RetireGen(s: System, g: nat, remove: bool, gens: seq<Gen>)
    requires Valid(s) && g == Current(s) && g < |gens| && gens[g] == Retired(s.gens[g], remove)
    ensures var gen := gens[g];
            && gen.retired && gen.refs == OpenOn(s.leases, g)
            && (gen.open <==> gen.refs > 0) && gen.closes == (if gen.open then 0 else 1)
  {
    GensOf(s, g);
  }

  lemma InstallStep(s: System, i: nat)
    requires Valid(s) && Enabled(s, Install(i))
    ensures var t := Next(s, Install(i));
            LeasesValid(t) && forall g :: 0 <= g < |t.gens| ==> GenValid(t, g)
  {
    hide TokenValid;
    var t := Next(s, Install(i));
    RetireGen(s, Current(s), true, t.gens);
    NothingOpen(s.leases, |s.gens|);
    forall g | 0 <= g < |t.gens|
      ensures GenValid(t, g)
    {
      if g < |s.gens| {
        GensOf(s, g);
      }
    }
  }

  lemma CloseRetiresStep(s: System)
    requires Valid(s) && s.barrier
    ensures var t := Next(s, CloseRetires);
            LeasesValid(t) && forall g :: 0 <= g < |t.gens| ==> GenValid(t, g)
  {
    hide TokenValid;
    var t := Next(s, CloseRetires);
    RetireGen(s, Current(s), false, t.gens);
    forall g | 0 <= g < |t.gens|
      ensures GenValid(t, g)
    {
      GensOf(s, g);
    }
  }

  /** Every step of every save, reader and shutdown keeps token, references and counts exact. */
  lemma StepKeepsValid(s: System, a: Step)
    requires Valid(s) && Enabled(s, a)
    ensures Valid(Next(s, a))
  {
    hide LeasesValid, GenValid, TokenValid;
    var t := Next(s, a);
    if TokenStep(a) {
      TokenSteps(s, a);
      ResourcesKept(s, t);
    } else {
      TokenKept(s, t);
      match a {
        case Snapshot => CurrentOpen(s); AcquireStep(s, Lease(Current(s), true, true), t);
        case SaveSnapshot(i) => CurrentOpen(s); AcquireStep(s, Lease(Current(s), false, true), t);
        case Uncount(l) => UncountStep(s, l);
        case CloseLease(l) => CloseLeaseStep(s, l); LeaseGen(s, l);
        case Install(i) => ActiveAlone(s, i); InstallStep(s, i);
        case CloseRetires => CloseRetiresStep(s);
      }
    }
  }

  lemma LeaseGen(s: System, l: nat)
    requires LeasesValid(s) && l < |s.leases|
    ensures s.leases[l].gen < |s.gens|
  {
  }

  lemma ActiveAlone(s: System, i: nat)
    requires TokenValid(s) && i in s.saves && s.saves[i] == Active
    ensures !s.barrier && s.gate == 0 && s.saveActive && forall j :: j in s.saves && s.saves[j] != Waiting ==> j == i
  {
    assert i in Holders(s) && i in Saving(s);
    OnlyHolder(s, i);
    assert forall j :: j in s.saves && s.saves[j] != Waiting ==> j in Holders(s);
  }

  // ---------------------------------------------------------------- what follows for whole runs

  function Start(maximum: nat): System {
    System([NewGen], [], 0, maximum, false, 1, map[], 0, false, false, false)
  }

  ghost predicate Run(steps: seq<Step>, run: seq<System>, maximum: nat) {
    && |run| == |steps| + 1 && run[0] == Start(maximum)
    && forall i :: 0 <= i < |steps| ==>
         run[i].gens != [] && Enabled(run[i], steps[i]) && run[i + 1] == Next(run[i], steps[i])
  }

  lemma {:induction false} RunValid(steps: seq<Step>, run: seq<System>, maximum: nat)
    requires Run(steps, run, maximum)
    ensures Valid(run[|steps|])
    decreases |steps|
  {
    hide Valid, Enabled, Next;
    if steps == [] {
      StartValid(maximum);
    } else {
      var n := |steps| - 1;
      RunValid(steps[..n], run[..n + 1], maximum);
      StepKeepsValid(run[n], steps[n]);
    }
  }

  lemma StartValid(maximum: nat)
    ensures Valid(Start(maximum))
  {
    var s := Start(maximum);
    assert Holders(s) == {} && Unchecked(s) == {} && Saving(s) == {};
  }

  /** After any run: the token is with at most one save or with the closing session; every open lease reads open files;
      a generation's files are closed exactly once, and exactly when it is retired and its last lease is closed; and
      the leases counted against the limit never exceed it. */
  lemma RunPromises(steps: seq<Step>, run: seq<System>, maximum: nat)
    requires Run(steps, run, maximum)
    ensures var s := run[|steps|];
            && (forall i, j :: i in s.saves && j in s.saves && s.saves[i] == Active && s.saves[j] != Waiting ==>
                 i == j && !s.barrier)
            && (forall l :: 0 <= l < |s.leases| && s.leases[l].open ==>
                 s.leases[l].gen < |s.gens| && s.gens[s.leases[l].gen].open)
            && (forall g :: 0 <= g < |s.gens| ==>
                  s.gens[g].closes == (if s.gens[g].retired && OpenOn(s.leases, g) == 0 then 1 else 0) &&
                  (s.gens[g].open <==> s.gens[g].closes == 0))
            && s.active == Counted(s.leases) <= s.maximum
  {
    hide Enabled, Next;
    var s := run[|steps|];
    RunValid(steps, run, maximum);
    forall i, j | i in s.saves && j in s.saves && s.saves[i] == Active && s.saves[j] != Waiting
      ensures i == j && !s.barrier
    {
      ActiveAlone(s, i);
    }
    forall l | 0 <= l < |s.leases| && s.leases[l].open
      ensures s.leases[l].gen < |s.gens| && s.gens[s.leases[l].gen].open
    {
      OpenCounts(s.leases, l, s.leases[l].gen);
      GensOf(s, s.leases[l].gen);
    }
    forall g | 0 <= g < |s.gens|
      ensures s.gens[g].closes == (if s.gens[g].retired && OpenOn(s.leases, g) == 0 then 1 else 0)
      ensures s.gens[g].open <==> s.gens[g].closes == 0
    {
      GensOf(s, g);
    }
  }
}
