/** The byte-bounded LRU of query windows in front of an index. */
module WindowCache {
  import opened Documents

  datatype Entry = Entry(start: int, data: seq<byte>)

  function Total(entries: seq<Entry>): (n: nat)
    decreases |entries|
  {
    if entries == [] then 0 else Total(entries[..|entries| - 1]) + |entries[|entries| - 1].data|
  }

  /** Evicting from the back until the budget is met: the longest affordable front. */
  function Fit(entries: seq<Entry>, maximum: int): (r: seq<Entry>)
    requires maximum >= 0
    ensures Total(r) <= maximum && r <= entries
    ensures |r| < |entries| ==> Total(entries[..|r| + 1]) > maximum
    decreases |entries|
  {
    if Total(entries) <= maximum then entries
    else
      var r := Fit(entries[..|entries| - 1], maximum);
      assert if |r| == |entries| - 1 then entries[..|r| + 1] == entries
             else entries[..|entries| - 1][..|r| + 1] == entries[..|r| + 1];
      r
  }

  /** Position of the window starting at start; |entries| when there is none. */
  function Find(entries: seq<Entry>, start: int): (k: nat)
    ensures k <= |entries|
    ensures k < |entries| ==> entries[k].start == start
    ensures forall i :: 0 <= i < k ==> entries[i].start != start
    decreases |entries|
  {
    if entries == [] then 0
    else if entries[0].start == start then 0
    else 1 + Find(entries[1..], start)
  }

  function MoveToFront(entries: seq<Entry>, k: nat): seq<Entry>
    requires k < |entries|
  {
    [entries[k]] + entries[..k] + entries[k + 1..]
  }

  lemma {:induction false} TotalConcat(a: seq<Entry>, b: seq<Entry>)
    ensures Total(a + b) == Total(a) + Total(b)
    decreases |b|
  {
    if b == [] {
      assert a + b == a;
    } else {
      TotalConcat(a, b[..|b| - 1]);
      assert (a + b)[..|a + b| - 1] == a + b[..|b| - 1];
    }
  }

  lemma MoveToFrontTotal(entries: seq<Entry>, k: nat)
    requires k < |entries|
    ensures Total(MoveToFront(entries, k)) == Total(entries)
  {
    hide Total;
    var a, e, b := entries[..k], [entries[k]], entries[k + 1..];
    assert entries == a + e + b;
    TotalConcat(a + e, b);
    TotalConcat(a, e);
    TotalConcat(e + a, b);
    TotalConcat(e, a);
  }

  /** Every window is the stretch of the text that starts at its offset. */
  ghost predicate FaithfulTo(entries: seq<Entry>, text: seq<byte>, window: nat) {
    forall i :: 0 <= i < |entries| ==>
      0 <= entries[i].start <= |text| &&
      entries[i].data == text[entries[i].start..Min(|text|, entries[i].start + window)]
  }

  lemma ReorderedFaithful(entries: seq<Entry>, k: nat, text: seq<byte>, window: nat)
    requires FaithfulTo(entries, text, window) && k < |entries|
    ensures FaithfulTo(MoveToFront(entries, k), text, window)
  {
  }

  lemma StoredFaithful(entries: seq<Entry>, entry: Entry, maximum: nat, text: seq<byte>, window: nat)
    requires FaithfulTo(entries, text, window)
    requires FaithfulTo([entry], text, window)
    ensures FaithfulTo(Fit([entry] + entries, maximum), text, window)
  {
    assert [entry][0] == entry;
  }

  class Cache {
    var entries: seq<Entry>
    var bytes: int
    const maximum: int
    var hits: nat
    var misses: nat

    ghost predicate Valid()
      reads this
    {
      maximum >= 0 && bytes == Total(entries) <= maximum
    }

    ghost predicate Faithful(text: seq<byte>, window: nat)
      reads this
    {
      FaithfulTo(entries, text, window)
    }

    constructor (maximum: int)
      requires maximum >= 0
      ensures Valid() && entries == [] && this.maximum == maximum
    {
      entries, bytes, hits, misses := [], 0, 0, 0;
      this.maximum := maximum;
    }

    /** cachedWindow: a hit becomes the most recent entry. */
    method Lookup(start: int, ghost text: seq<byte>, ghost window: nat) returns (found: bool, data: seq<byte>)
      requires Valid() && Faithful(text, window)
      modifies this
      ensures Valid() && Faithful(text, window)
      ensures found ==> 0 <= start <= |text| && data == text[start..Min(|text|, start + window)]
      ensures found <==> Find(old(entries), start) < |old(entries)|
      ensures found ==> data == old(entries)[Find(old(entries), start)].data
      ensures entries == if found then MoveToFront(old(entries), Find(old(entries), start)) else old(entries)
      ensures hits == old(hits) + (if found then 1 else 0) && misses == old(misses) + (if found then 0 else 1)
    {
      hide Total, MoveToFront;
      var k := Find(entries, start);
      if k < |entries| {
        MoveToFrontTotal(entries, k);
        ReorderedFaithful(entries, k, text, window);
        data := entries[k].data;
        entries := MoveToFront(entries, k);
        hits := hits + 1;
        return true, data;
      }
      misses := misses + 1;
      found, data := false, [];
    }

    /** storeWindow: the new window in front, then evictions from the back; oversized windows are not kept. */
    method Store(start: int, data: seq<byte>, ghost text: seq<byte>, ghost window: nat)
      requires Valid() && Faithful(text, window)
      requires FaithfulTo([Entry(start, data)], text, window)
      modifies this`entries, this`bytes
      ensures Valid() && Faithful(text, window)
      ensures entries ==
              if maximum == 0 || |data| > maximum then old(entries)
              else if Find(old(entries), start) < |old(entries)|
              then MoveToFront(old(entries), Find(old(entries), start))
              else Fit([Entry(start, data)] + old(entries), maximum)
    {
      hide MoveToFront, Find;
      if maximum == 0 || |data| > maximum {
        return;
      }
      var k := Find(entries, start);
      if k < |entries| {
        MoveToFrontTotal(entries, k);
        ReorderedFaithful(entries, k, text, window);
        entries := MoveToFront(entries, k);
        return;
      }
      StoredFaithful(entries, Entry(start, data), maximum, text, window);
      TotalConcat([Entry(start, data)], entries);
      assert [Entry(start, data)][..0] == [];
      entries := [Entry(start, data)] + entries;
      bytes := bytes + |data|;
      Evict();
    }

    /** Drops windows from the back until the budget is met. */
    method Evict()
      requires maximum >= 0 && bytes == Total(entries)
      modifies this`entries, this`bytes
      ensures Valid() && entries == Fit(old(entries), maximum)
    {
      while bytes > maximum
        invariant bytes == Total(entries)
        invariant Fit(entries, maximum) == Fit(old(entries), maximum)
        decreases |entries|
      {
        var last := entries[|entries| - 1];
        bytes := bytes - |last.data|;
        entries := entries[..|entries| - 1];
      }
    }
  }
}
