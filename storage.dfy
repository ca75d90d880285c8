/** The recent-zipcode history of the weather screen: a bounded, duplicate-free
    list of zipcodes, oldest first, persisted under one key of the device's
    key-value store. The persisted value is modelled as the Slot it decodes to,
    so JSON encoding and decoding are abstracted away. */
module Storage {

  type Zipcode = string

  /** The key the history is persisted under. */
  const ZipcodeStorageKey: string := "zipcode-storage"

  /** The most zipcodes one store keeps once it has evicted. */
  const MaxHistoryItems: nat := 5

  /** What the key-value store holds under ZipcodeStorageKey: no value at all,
      a value that does not parse, or a parsed list of zipcodes, oldest first. */
  datatype Slot = Absent | Corrupt | Stored(zipcodes: seq<Zipcode>)

  predicate NoDuplicates(s: seq<Zipcode>)
  {
    forall i, j | 0 <= i < j < |s| :: s[i] != s[j]
  }

  /** A history as the store builds it: at most MaxHistoryItems entries, none twice. */
  predicate ValidHistory(h: seq<Zipcode>)
  {
    |h| <= MaxHistoryItems && NoDuplicates(h)
  }

  predicate ValidSlot(slot: Slot)
  {
    slot.Stored? ==> ValidHistory(slot.zipcodes)
  }

  /** The list written back after a store of `zipcode` read the list `h`:
      unchanged if `zipcode` is already there, otherwise `zipcode` appended at
      the end and, if that makes the list too long, its front entry evicted. */
  function Remember(h: seq<Zipcode>, zipcode: Zipcode): (r: seq<Zipcode>)
    ensures zipcode in r
    ensures |h| <= MaxHistoryItems ==> |r| <= MaxHistoryItems
    ensures zipcode !in h ==> r[|r| - 1] == zipcode
  {
    if zipcode in h then h
    else
      var pushed := h + [zipcode];
      if |pushed| > MaxHistoryItems then
        assert pushed[1..][|h| - 1] == zipcode;
        pushed[1..]
      else pushed
  }

  /** The slot after one store of `zipcode` whose write the key-value store
      accepts. A corrupt slot makes the parse fail before anything is written. */
  function AfterStore(slot: Slot, zipcode: Zipcode): Slot
  {
    match slot
    case Absent => Stored([zipcode])
    case Corrupt => Corrupt
    case Stored(h) => Stored(Remember(h, zipcode))
  }

  /** What a read of the history returns: the stored list, or the empty list
      when nothing is stored or the stored value does not parse. */
  function Read(slot: Slot): seq<Zipcode>
  {
    match slot
    case Stored(h) => h
    case _ => []
  }

  /** The slot after the stores of `zipcodes`, in order, all accepted. */
  function StoreAll(slot: Slot, zipcodes: seq<Zipcode>): Slot
    decreases |zipcodes|
  {
    if zipcodes == [] then slot
    else AfterStore(StoreAll(slot, zipcodes[..|zipcodes| - 1]), zipcodes[|zipcodes| - 1])
  }

  /** The last `n` entries of `s` (all of `s` if it is shorter). */
  function LastN(s: seq<Zipcode>, n: nat): (r: seq<Zipcode>)
    ensures |r| == if |s| <= n then |s| else n
  {
    if |s| <= n then s else s[|s| - n..]
  }

  // ---------------------------------------------------------------------------
  // One store

  /** Storing a zipcode that is already in the list leaves the list as it was. */
  lemma RememberPresentUnchanged(h: seq<Zipcode>, zipcode: Zipcode)
    requires zipcode in h
    ensures Remember(h, zipcode) == h
  {
  }

  /** Below the cap, a new zipcode is appended and every earlier entry stays, in order. */
  lemma RememberAppendsBelowCap(h: seq<Zipcode>, zipcode: Zipcode)
    requires zipcode !in h && |h| < MaxHistoryItems
    ensures Remember(h, zipcode) == h + [zipcode]
    ensures |Remember(h, zipcode)| == |h| + 1
  {
  }

  /** At the cap, a new zipcode evicts exactly the oldest entry. */
  lemma RememberEvictsOldest(h: seq<Zipcode>, zipcode: Zipcode)
    requires zipcode !in h && |h| == MaxHistoryItems
    ensures Remember(h, zipcode) == h[1..] + [zipcode]
    ensures |Remember(h, zipcode)| == MaxHistoryItems
    ensures NoDuplicates(h) ==> h[0] !in Remember(h, zipcode)
  {
    if NoDuplicates(h) {
      forall k | 0 <= k < |h| - 1 ensures h[1..][k] != h[0] {
        assert h[1..][k] == h[k + 1];
      }
    }
  }

  /** A store keeps the history within the cap and free of duplicates. */
  lemma RememberKeepsValid(h: seq<Zipcode>, zipcode: Zipcode)
    requires ValidHistory(h)
    ensures ValidHistory(Remember(h, zipcode))
  {
    if zipcode !in h {
      var pushed := h + [zipcode];
      assert NoDuplicates(pushed) by {
        forall i, j | 0 <= i < j < |pushed| ensures pushed[i] != pushed[j] {
          if j == |h| {
            assert pushed[i] == h[i];
          }
        }
      }
    }
  }

  /** Storing into an absent slot stores exactly the one zipcode. */
  lemma StoreIntoAbsent(zipcode: Zipcode)
    ensures AfterStore(Absent, zipcode) == Stored([zipcode])
    ensures Read(AfterStore(Absent, zipcode)) == [zipcode]
  {
  }

  /** A store into a corrupt slot changes nothing, and the read still gives []. */
  lemma StoreIntoCorrupt(zipcode: Zipcode)
    ensures AfterStore(Corrupt, zipcode) == Corrupt
    ensures Read(AfterStore(Corrupt, zipcode)) == []
  {
  }

  /** Storing the same zipcode twice has the effect of storing it once. */
  lemma StoreTwiceIsStoreOnce(slot: Slot, zipcode: Zipcode)
    ensures AfterStore(AfterStore(slot, zipcode), zipcode) == AfterStore(slot, zipcode)
  {
  }

  /** A store keeps a valid slot valid. */
  lemma StoreKeepsValid(slot: Slot, zipcode: Zipcode)
    requires ValidSlot(slot)
    ensures ValidSlot(AfterStore(slot, zipcode))
  {
    if slot.Stored? {
      RememberKeepsValid(slot.zipcodes, zipcode);
    }
  }

  /** After a store into a readable slot, the read contains the zipcode, and a
      zipcode that was not there before is the last, most recent, entry. */
  lemma ReadAfterStore(slot: Slot, zipcode: Zipcode)
    requires !slot.Corrupt?
    ensures zipcode in Read(AfterStore(slot, zipcode))
    ensures zipcode !in Read(slot) ==>
      Read(AfterStore(slot, zipcode))[|Read(AfterStore(slot, zipcode))| - 1] == zipcode
  {
  }

  /** Reading an absent or corrupt slot gives [], reading a stored list gives it back unchanged. */
  lemma ReadSlot(slot: Slot)
    ensures !slot.Stored? ==> Read(slot) == []
    ensures slot.Stored? ==> Read(slot) == slot.zipcodes
  {
  }

  // ---------------------------------------------------------------------------
  // Several stores

  /** Any sequence of stores keeps a valid slot valid. */
  lemma {:induction false} StoreAllKeepsValid(slot: Slot, zipcodes: seq<Zipcode>)
    requires ValidSlot(slot)
    ensures ValidSlot(StoreAll(slot, zipcodes))
    decreases |zipcodes|
  {
    if zipcodes != [] {
      var prefix := zipcodes[..|zipcodes| - 1];
      StoreAllKeepsValid(slot, prefix);
      StoreKeepsValid(StoreAll(slot, prefix), zipcodes[|zipcodes| - 1]);
    }
  }

  /** A corrupt slot stays corrupt whatever is stored into it. */
  lemma {:induction false} CorruptStaysCorrupt(zipcodes: seq<Zipcode>)
    ensures StoreAll(Corrupt, zipcodes) == Corrupt
    decreases |zipcodes|
  {
    if zipcodes != [] {
      CorruptStaysCorrupt(zipcodes[..|zipcodes| - 1]);
    }
  }

  /** Storing distinct zipcodes into an absent slot keeps the most recent
      MaxHistoryItems of them, oldest first. */
  lemma {:induction false} StoreDistinctFromAbsent(zipcodes: seq<Zipcode>)
    requires |zipcodes| > 0 && NoDuplicates(zipcodes)
    ensures StoreAll(Absent, zipcodes) == Stored(LastN(zipcodes, MaxHistoryItems))
    decreases |zipcodes|
  {
    var n := |zipcodes|;
    if n > 1 {
      var prefix, z := zipcodes[..n - 1], zipcodes[n - 1];
      assert NoDuplicates(prefix) by {
        forall i, j | 0 <= i < j < |prefix| ensures prefix[i] != prefix[j] {
          assert prefix[i] == zipcodes[i] && prefix[j] == zipcodes[j];
        }
      }
      StoreDistinctFromAbsent(prefix);
      var kept := LastN(prefix, MaxHistoryItems);
      assert z !in kept by {
        forall k | 0 <= k < |kept| ensures kept[k] != z {
          assert kept[k] == zipcodes[|prefix| - |kept| + k];
        }
      }
      if |prefix| < MaxHistoryItems {
        assert kept + [z] == zipcodes;
      } else {
        var evicted, recent := (kept + [z])[1..], zipcodes[n - MaxHistoryItems..];
        assert |evicted| == |recent| == MaxHistoryItems;
        forall k | 0 <= k < MaxHistoryItems ensures evicted[k] == recent[k] {
          if k < MaxHistoryItems - 1 {
            assert evicted[k] == kept[k + 1] == prefix[|prefix| - MaxHistoryItems + k + 1];
          }
        }
        assert evicted == recent;
      }
    }
  }

  /** Storing MaxHistoryItems + 1 distinct zipcodes into an absent slot keeps
      exactly MaxHistoryItems of them: the first one stored is the one evicted. */
  lemma SixDistinctStoresEvictFirst(zipcodes: seq<Zipcode>)
    requires |zipcodes| == MaxHistoryItems + 1 && NoDuplicates(zipcodes)
    ensures StoreAll(Absent, zipcodes) == Stored(zipcodes[1..])
    ensures |Read(StoreAll(Absent, zipcodes))| == MaxHistoryItems
    ensures zipcodes[0] !in Read(StoreAll(Absent, zipcodes))
  {
    StoreDistinctFromAbsent(zipcodes);
    assert zipcodes[0] !in zipcodes[1..] by {
      forall k | 0 <= k < |zipcodes| - 1 ensures zipcodes[1..][k] != zipcodes[0] {
        assert zipcodes[1..][k] == zipcodes[k + 1];
      }
    }
  }

  // ---------------------------------------------------------------------------
  // The persisted history as the app sees it

  /** The device's key-value store, reduced to the one slot the history uses. */
  class ZipcodeStorage {
    var slot: Slot

    /** The storage as found on the device, whatever it holds. */
    constructor (initial: Slot)
      ensures slot == initial
    {
      slot := initial;
    }

    /** Records a searched zipcode. `writeAccepted` says whether the key-value
        store accepts the write; a rejected write, like every other failure, is
        swallowed and leaves the slot as it was. */
    method StoreZipcode(zipcode: Zipcode, writeAccepted: bool)
      modifies this
      ensures slot == if writeAccepted then AfterStore(old(slot), zipcode) else old(slot)
      ensures ValidSlot(old(slot)) ==> ValidSlot(slot)
    {
      ghost var before := slot;
      if slot.Absent? {
        if writeAccepted {
          slot := Stored([zipcode]);
        }
      } else if slot.Stored? {
        var zipcodes := slot.zipcodes;
        if zipcode !in zipcodes {
          zipcodes := zipcodes + [zipcode];
          if |zipcodes| > MaxHistoryItems {
            zipcodes := zipcodes[1..];
          }
          if writeAccepted {
            slot := Stored(zipcodes);
          }
        }
      }
      // A corrupt slot fails to parse: the error is swallowed and nothing is written.
      if ValidSlot(before) {
        StoreKeepsValid(before, zipcode);
      }
    }

    /** The stored history, or [] when there is none or it cannot be read. */
    method GetLastSearchedZipcodes() returns (zipcodes: seq<Zipcode>)
      ensures zipcodes == Read(slot)
      ensures slot.Stored? ==> zipcodes == slot.zipcodes
      ensures !slot.Stored? ==> zipcodes == []
    {
      if slot.Stored? {
        zipcodes := slot.zipcodes;
      } else {
        zipcodes := [];
      }
    }
  }
}
