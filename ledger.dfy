/** The dedup ledger `processedAddresses` (index.js:14-17, 82, 127-133): an
    insertion-ordered set of the addresses already relayed, kept to at most
    MAX_PROCESSED_ADDRESSES entries by evicting the oldest one. */
module Dedup {

  /** MAX_PROCESSED_ADDRESSES */
  const MaxProcessedAddresses: nat := 1000

  ghost predicate Distinct(s: seq<string>) {
    forall i, j :: 0 <= i < j < |s| ==> s[i] != s[j]
  }

  /** What the ledger may hold: a duplicate-free insertion order within the bound. */
  ghost predicate ValidEntries(s: seq<string>) {
    Distinct(s) && |s| <= MaxProcessedAddresses
  }

  /** `Set.prototype.delete`: the entries without `x`, the others in their order. */
  function Removed(s: seq<string>, x: string): (r: seq<string>)
    ensures x !in r
    ensures forall y :: y in r <==> y in s && y != x
    ensures |r| <= |s|
  {
    if s == [] then []
    else (if s[0] == x then [] else [s[0]]) + Removed(s[1..], x)
  }

  lemma {:induction false} RemovedAbsent(s: seq<string>, x: string)
    requires x !in s
    ensures Removed(s, x) == s
  {
    if s != [] {
      RemovedAbsent(s[1..], x);
    }
  }

  lemma AppendedDistinct(s: seq<string>, a: string)
    requires Distinct(s) && a !in s
    ensures Distinct(s + [a])
  {
    forall i, j | 0 <= i < j < |s + [a]| ensures (s + [a])[i] != (s + [a])[j] {
      if j == |s| {
        assert (s + [a])[i] == s[i];
      }
    }
  }

  /** Deleting the first value of a duplicate-free order drops exactly the head. */
  lemma RemovedHead(s: seq<string>)
    requires |s| > 0 && Distinct(s)
    ensures Removed(s, s[0]) == s[1..]
  {
    assert s[0] !in s[1..];
    RemovedAbsent(s[1..], s[0]);
  }

  /** The ledger after `add(a)` followed by the eviction check: a new address is
      appended, and if that takes the size past the bound the oldest entry goes. */
  function Recorded(entries: seq<string>, a: string): seq<string> {
    var added := if a in entries then entries else entries + [a];
    if |added| > MaxProcessedAddresses then added[1..] else added
  }

  /** Recording keeps the ledger duplicate-free and within its bound, and the
      address is present afterwards. */
  lemma RecordedValid(entries: seq<string>, a: string)
    requires ValidEntries(entries)
    ensures ValidEntries(Recorded(entries, a))
    ensures a in Recorded(entries, a)
  {
    if a !in entries {
      AppendedDistinct(entries, a);
      var added := entries + [a];
      assert added[|added| - 1] == a;
      if |added| > MaxProcessedAddresses {
        assert added[1..][|added| - 2] == a;
      }
    }
  }

  /** Strict FIFO: recording a new address appends it, and evicts exactly the
      oldest entry when the ledger was full; every other entry keeps its place in
      the order. Recording a present address changes nothing. */
  lemma RecordedIsFifo(entries: seq<string>, a: string)
    requires ValidEntries(entries)
    ensures a in entries ==> Recorded(entries, a) == entries
    ensures a !in entries && |entries| < MaxProcessedAddresses ==>
      Recorded(entries, a) == entries + [a]
    ensures a !in entries && |entries| == MaxProcessedAddresses ==>
      Recorded(entries, a) == entries[1..] + [a]
      && entries[0] !in Recorded(entries, a)
  {
    if a !in entries && |entries| == MaxProcessedAddresses {
      assert (entries + [a])[1..] == entries[1..] + [a];
      assert entries[0] !in entries[1..];
    }
  }

  /** A run of successful relays, oldest first. */
  function RecordedAll(entries: seq<string>, addresses: seq<string>): seq<string>
    decreases |addresses|
  {
    if addresses == [] then entries
    else RecordedAll(Recorded(entries, addresses[0]), addresses[1..])
  }

  /** The last `n` elements of `s` (all of them when there are fewer). */
  function Newest(s: seq<string>, n: nat): (r: seq<string>)
    ensures |r| <= n
  {
    if |s| <= n then s else s[|s| - n..]
  }

  lemma NewestOfNewest(a: seq<string>, b: seq<string>, n: nat)
    ensures Newest(Newest(a, n) + b, n) == Newest(a + b, n)
  {
    if |a| > n {
      var a' := a[|a| - n..];
      if |a' + b| > n {
        assert (a' + b)[|a' + b| - n..] == (a + b)[|a + b| - n..];
      }
    }
  }

  /** Any run of records keeps the ledger valid. */
  lemma {:induction false} RecordedAllValid(entries: seq<string>, addresses: seq<string>)
    requires ValidEntries(entries)
    ensures ValidEntries(RecordedAll(entries, addresses))
    decreases |addresses|
  {
    if addresses != [] {
      RecordedValid(entries, addresses[0]);
      RecordedAllValid(Recorded(entries, addresses[0]), addresses[1..]);
    }
  }

  /** Recording distinct new addresses leaves exactly the newest 1000 of everything
      ever recorded, in insertion order. */
  lemma {:induction false} RecordedAllKeepsNewest(entries: seq<string>, addresses: seq<string>)
    requires ValidEntries(entries) && Distinct(entries + addresses)
    ensures RecordedAll(entries, addresses) == Newest(entries + addresses, MaxProcessedAddresses)
    decreases |addresses|
  {
    if addresses == [] {
      assert entries + addresses == entries;
    } else {
      var a := addresses[0];
      forall k | 0 <= k < |entries| ensures entries[k] != a {
        assert (entries + addresses)[k] == entries[k];
        assert (entries + addresses)[|entries|] == a;
      }
      var next := Recorded(entries, a);
      assert next == Newest(entries + [a], MaxProcessedAddresses);
      RecordedValid(entries, a);
      assert entries + addresses == (entries + [a]) + addresses[1..];
      NewestOfNewest(entries + [a], addresses[1..], MaxProcessedAddresses);
      forall i, j | 0 <= i < j < |next + addresses[1..]|
        ensures (next + addresses[1..])[i] != (next + addresses[1..])[j]
      {
        var whole := (entries + [a]) + addresses[1..];
        var off := |entries + [a]| - |next|;
        assert (next + addresses[1..])[i] == whole[i + off];
        assert (next + addresses[1..])[j] == whole[j + off];
      }
      RecordedAllKeepsNewest(next, addresses[1..]);
    }
  }

  /** Relaying 1001 distinct addresses into an empty ledger forgets the first one
      and keeps the other 1000. */
  lemma ThousandAndOneEvictsFirst(addresses: seq<string>)
    requires |addresses| == MaxProcessedAddresses + 1 && Distinct(addresses)
    ensures addresses[0] !in RecordedAll([], addresses)
    ensures forall i :: 1 <= i < |addresses| ==> addresses[i] in RecordedAll([], addresses)
  {
    assert [] + addresses == addresses;
    RecordedAllKeepsNewest([], addresses);
    assert RecordedAll([], addresses) == addresses[1..];
    assert addresses[0] !in addresses[1..];
  }

  /** The ledger object that `processAddress` consults and updates. */
  class Ledger {
    /** The addresses in insertion order, oldest first. */
    var entries: seq<string>

    ghost predicate Valid()
      reads this
    {
      ValidEntries(entries)
    }

    constructor ()
      ensures Valid() && entries == []
    {
      entries := [];
    }

    /** `processedAddresses.has(address)` */
    method Has(address: string) returns (present: bool)
      ensures present <==> address in entries
    {
      present := address in entries;
    }

    /** `processedAddresses.add(address)`, then, if the size is over the bound,
        `delete` of the first value in iteration order. */
    method Record(address: string)
      requires Valid()
      modifies this
      ensures Valid()
      ensures entries == Recorded(old(entries), address)
    {
      RecordedValid(entries, address);
      if address !in entries {
        AppendedDistinct(entries, address);
        entries := entries + [address];
      }
      if |entries| > MaxProcessedAddresses {
        var firstAddress := entries[0];
        RemovedHead(entries);
        entries := Removed(entries, firstAddress);
      }
    }
  }
}
