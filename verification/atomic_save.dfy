/** Replacing a file through a temporary file: the order of effects that the crash model of the session relies on. */
module AtomicSave {
  import opened Documents

  /** Committed: the target holds the new bytes. Uncertain: it does, but its durability could not be confirmed. */
  datatype Outcome = Committed(total: nat) | Uncertain(total: nat) | Kept(total: nat)

  /** What has happened in the directory, in order. */
  datatype Effect =
    | Created(name: nat)
    | Wrote(name: nat, data: seq<byte>)
    | Flushed(name: nat)
    | Checked(name: nat)
    | Renamed(name: nat)
    | Removed(name: nat)

  /** The effects of a save that replaces the target: everything is written, then flushed, then checked, then renamed.
      */
  function SaveEffects(name: nat, prefix: seq<byte>, chunks: seq<seq<byte>>): seq<Effect> {
    Writes(name, prefix, chunks) + [Flushed(name), Checked(name), Renamed(name)]
  }

  function Writes(name: nat, prefix: seq<byte>, chunks: seq<seq<byte>>): seq<Effect> {
    [Created(name)] + (if prefix == [] then [] else [Wrote(name, prefix)])
    + seq(|chunks|, i requires 0 <= i < |chunks| => Wrote(name, chunks[i]))
  }

  /** Nothing after a point is a replacement. */
  predicate NoRename(trace: seq<Effect>, from: nat) {
    forall i :: from <= i < |trace| ==> !trace[i].Renamed?
  }

  /** The directory of the document: the target, and temporary files by name. */
  class Directory {
    var target: seq<byte>
    var temporary: map<nat, seq<byte>>
    /** The temporary files whose bytes have been flushed. */
    var flushed: set<nat>
    ghost var trace: seq<Effect>

    constructor (target: seq<byte>)
      ensures this.target == target && temporary == map[] && flushed == {} && trace == []
    {
      this.target, temporary, flushed, trace := target, map[], {}, [];
    }

    method CreateTemp() returns (name: nat, failed: bool)
      modifies this`temporary, this`trace
      ensures failed ==> temporary == old(temporary) && trace == old(trace)
      ensures !failed ==>
                && name !in old(temporary) && temporary == old(temporary)[name := []]
                && trace == old(trace) + [Created(name)]
    {
      name, failed := *, *;
      if name in temporary {
        failed := true;
      }
      if !failed {
        temporary := temporary[name := []];
        trace := trace + [Created(name)];
      }
    }

    /** A write may stop short, and then fails. */
    method Write(name: nat, data: seq<byte>) returns (n: nat, failed: bool)
      requires name in temporary
      modifies this`temporary, this`trace
      ensures n <= |data| && (!failed ==> n == |data|)
      ensures temporary == old(temporary)[name := old(temporary)[name] + data[..n]]
      ensures trace == old(trace) + [Wrote(name, data[..n])]
    {
      n, failed := *, *;
      if n > |data| || !failed {
        n := |data|;
      }
      temporary := temporary[name := temporary[name] + data[..n]];
      trace := trace + [Wrote(name, data[..n])];
    }

    method Sync(name: nat) returns (failed: bool)
      modifies this`flushed, this`trace
      ensures flushed == if failed then old(flushed) else old(flushed) + {name}
      ensures trace == if failed then old(trace) else old(trace) + [Flushed(name)]
    {
      failed := *;
      if !failed {
        flushed := flushed + {name};
        trace := trace + [Flushed(name)];
      }
    }

    /** The last check before the replacement: whatever it does, it sees the complete, flushed file beside the old
        target. */
    method BeforeReplace(name: nat, ghost whole: seq<byte>) returns (refused: bool)
      requires name in temporary && temporary[name] == whole && name in flushed
      modifies this`trace
      ensures trace == old(trace) + [Checked(name)]
    {
      refused := *;
      trace := trace + [Checked(name)];
    }

    /** Renaming over the target happens completely or not at all. */
    method Replace(name: nat) returns (failed: bool, uncertain: bool)
      requires name in temporary
      modifies this`target, this`temporary, this`trace
      ensures failed && !uncertain ==> target == old(target) && temporary == old(temporary) && trace == old(trace)
      ensures !failed || uncertain ==>
                && target == old(temporary)[name] && temporary == old(temporary) - {name}
                && trace == old(trace) + [Renamed(name)]
    {
      failed, uncertain := *, *;
      if !failed || uncertain {
        target := temporary[name];
        temporary := temporary - {name};
        trace := trace + [Renamed(name)];
      }
    }

    method Remove(name: nat)
      modifies this`temporary, this`trace
      ensures (temporary == old(temporary) - {name} && trace == old(trace) + [Removed(name)])
              || (temporary == old(temporary) && trace == old(trace))
    {
      var failed: bool := *;
      if !failed {
        temporary := temporary - {name};
        trace := trace + [Removed(name)];
      }
    }

    /** The bytes of a list of chunks. */
    static function Joined(chunks: seq<seq<byte>>): seq<byte>
      decreases |chunks|
    {
      if chunks == [] then [] else Joined(chunks[..|chunks| - 1]) + chunks[|chunks| - 1]
    }

    /** atomicChecked: the target changes only after the whole content has been written, flushed and checked, in this
        order, and then to exactly that content; in every other case it is what it was and never was replaced, and the
        temporary file is removed if it can be. */
    method AtomicChecked(prefix: seq<byte>, chunks: seq<seq<byte>>) returns (r: Outcome)
      modifies this
      ensures r.Kept? ==> target == old(target) && old(trace) <= trace && NoRename(trace, |old(trace)|)
      ensures !r.Kept? ==> target == prefix + Joined(chunks) && r.total == |target|
      ensures !r.Kept? ==> exists name ::
                && name !in old(temporary)
                && trace == old(trace) + SaveEffects(name, prefix, chunks)
      ensures !r.Kept? ==> temporary == old(temporary)
      ensures r.Kept? ==>
                temporary == old(temporary) || exists name: nat ::
                          && name !in old(temporary)
                          && temporary.Keys == old(temporary).Keys + {name}
    {
      hide Joined, Writes, NoRename, SaveEffects;
      NothingRenamed(trace);
      var name, failed := CreateTemp();
      if failed {
        return Kept(0);
      }
      Started(old(trace), name);
      failed := *;
      if failed {
        r := Abandon(name, 0, old(temporary), old(trace));
        return;
      }
      var total;
      total, failed := WritePrefix(name, prefix, old(trace));
      if failed {
        r := Abandon(name, total, old(temporary), old(trace));
        return;
      }
      var written;
      written, failed := WriteContent(name, prefix, chunks, old(trace));
      total := total + written;
      if failed {
        r := Abandon(name, total, old(temporary), old(trace));
        return;
      }
      r := SyncAndReplace(name, total, prefix, chunks, old(temporary), old(trace));
    }

    /** The end of a save: flush, check, rename. */
    method SyncAndReplace(name: nat, total: nat, prefix: seq<byte>, chunks: seq<seq<byte>>,
                          ghost before: map<nat, seq<byte>>, ghost effects: seq<Effect>)
      returns (r: Outcome)
      requires name !in before && temporary == before[name := prefix + Joined(chunks)] && total == |temporary[name]|
      requires trace == effects + Writes(name, prefix, chunks) && NoRename(trace, |effects|)
      modifies this
      ensures r.Kept? ==> target == old(target) && effects <= trace && NoRename(trace, |effects|)
      ensures r.Kept? ==> temporary == before || temporary.Keys == before.Keys + {name}
      ensures !r.Kept? ==>
                && target == prefix + Joined(chunks) && r.total == |target| && temporary == before
                && trace == effects + SaveEffects(name, prefix, chunks)
    {
      hide Joined, Writes, NoRename, SaveEffects;
      var failed := Sync(name);
      Harmless(effects, effects + Writes(name, prefix, chunks), Flushed(name));
      if !failed {
        failed := *;
      }
      if failed {
        r := Abandon(name, total, before, effects);
        return;
      }
      failed := BeforeReplace(name, prefix + Joined(chunks));
      Harmless(effects, effects + Writes(name, prefix, chunks) + [Flushed(name)], Checked(name));
      if failed {
        r := Abandon(name, total, before, effects);
        return;
      }
      var uncertain;
      failed, uncertain := Replace(name);
      if failed && !uncertain {
        r := Abandon(name, total, before, effects);
        return;
      }
      assert temporary == before;
      AllEffects(effects, name, prefix, chunks);
      return if uncertain then Uncertain(total) else Committed(total);
    }

    /** The prefix, if there is one. */
    method WritePrefix(name: nat, prefix: seq<byte>, ghost before: seq<Effect>) returns (n: nat, failed: bool)
      requires name in temporary && temporary[name] == [] && trace == before + [Created(name)]
      modifies this`temporary, this`trace
      ensures temporary.Keys == old(temporary).Keys && forall k :: k in temporary && k != name ==>
                temporary[k] == old(temporary)[k]
      ensures before <= trace && NoRename(trace, |before|)
      ensures !failed ==> temporary[name] == prefix && n == |prefix| && trace == before + Writes(name, prefix, [])
    {
      n, failed := 0, false;
      if |prefix| > 0 {
        n, failed := Write(name, prefix);
        assert !failed ==> prefix[..n] == prefix && [] + prefix == prefix;
      }
    }

    /** writeContent: chunk after chunk. */
    method WriteContent(name: nat, prefix: seq<byte>, chunks: seq<seq<byte>>, ghost before: seq<Effect>)
      returns (total: nat, failed: bool)
      requires name in temporary && temporary[name] == prefix && trace == before + Writes(name, prefix, [])
      requires NoRename(trace, |before|)
      modifies this`temporary, this`trace
      ensures temporary.Keys == old(temporary).Keys && forall k :: k in temporary && k != name ==>
                temporary[k] == old(temporary)[k]
      ensures before <= trace && NoRename(trace, |before|)
      ensures !failed ==>
                && temporary[name] == prefix + Joined(chunks) && |prefix| + total == |temporary[name]|
                && trace == before + Writes(name, prefix, chunks)
    {
      hide Joined, Writes, NoRename;
      total, failed := 0, false;
      NothingJoined(prefix, chunks);
      var i := 0;
      while i < |chunks|
        invariant 0 <= i <= |chunks| && !failed
        invariant temporary.Keys == old(temporary).Keys && forall k :: k in temporary && k != name ==>
                    temporary[k] == old(temporary)[k]
        invariant temporary[name] == prefix + Joined(chunks[..i]) && |prefix| + total == |temporary[name]|
        invariant trace == before + Writes(name, prefix, chunks[..i]) && NoRename(trace, |before|)
      {
        var n;
        n, failed := Write(name, chunks[i]);
        total := total + n;
        Harmless(before, before + Writes(name, prefix, chunks[..i]), Wrote(name, chunks[i][..n]));
        if failed {
          return;
        }
        assert chunks[i][..n] == chunks[i];
        OneMore(name, prefix, chunks, i);
        i := i + 1;
      }
      assert chunks[..i] == chunks;
    }

    static lemma NothingJoined(prefix: seq<byte>, chunks: seq<seq<byte>>)
      ensures chunks[..0] == [] && prefix + Joined(chunks[..0]) == prefix
    {
    }

    static lemma NothingRenamed(trace: seq<Effect>)
      ensures NoRename(trace, |trace|)
    {
    }

    static lemma Started(before: seq<Effect>, name: nat)
      ensures NoRename(before + [Created(name)], |before|)
    {
    }

    /** An effect that replaces nothing. */
    static lemma Harmless(before: seq<Effect>, trace: seq<Effect>, e: Effect)
      requires before <= trace && NoRename(trace, |before|) && !e.Renamed?
      ensures NoRename(trace + [e], |before|)
    {
    }

    static lemma AllEffects(before: seq<Effect>, name: nat, prefix: seq<byte>, chunks: seq<seq<byte>>)
      ensures before + Writes(name, prefix, chunks) + [Flushed(name)] + [Checked(name)] + [Renamed(name)]
              == before + SaveEffects(name, prefix, chunks)
    {
    }

    /** One more chunk. */
    static lemma OneMore(name: nat, prefix: seq<byte>, chunks: seq<seq<byte>>, i: nat)
      requires i < |chunks|
      ensures prefix + Joined(chunks[..i]) + chunks[i] == prefix + Joined(chunks[..i + 1])
      ensures Writes(name, prefix, chunks[..i + 1]) == Writes(name, prefix, chunks[..i]) + [Wrote(name, chunks[i])]
    {
      assert chunks[..i + 1][..i] == chunks[..i];
    }

    /** The deferred cleanup of a save that did not commit. */
    method Abandon(name: nat, total: nat, ghost before: map<nat, seq<byte>>, ghost effects: seq<Effect>)
      returns (r: Outcome)
      requires name !in before && temporary.Keys == before.Keys + {name} && forall k :: k in before ==>
                 temporary[k] == before[k]
      requires effects <= trace && NoRename(trace, |effects|)
      modifies this`temporary, this`trace
      ensures r == Kept(total) && (temporary == before || temporary.Keys == before.Keys + {name})
      ensures effects <= trace && NoRename(trace, |effects|)
    {
      Remove(name);
      assert name !in temporary ==> temporary == before;
      return Kept(total);
    }
  }
}
