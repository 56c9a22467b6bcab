/** What parse_mms_sequence writes, in terms of the data tree it is given. */
module GooseTrees {
  import opened Wrappers
  import opened Bytes
  import opened Ber
  import opened BerForest
  import opened Goose

  /** The pre-order listing of a forest whose first octet is at `at`, its entries
      numbered downwards from slot slots - 1. */
  function Listing(es: seq<Element>, at: nat, slots: int, depth: nat, parent: int): seq<MmsDataRef>
    requires WellFormedForest(es)
    decreases es, 0
  {
    if es == [] then []
    else ListingOf(es[0], at, slots, depth, parent)
         + Listing(es[1..], at + |ElementBytes(es[0])|, slots - SizeOf(es[0]), depth, parent)
  }

  /** An element, then its children one level deeper with its slot as parent. */
  function ListingOf(e: Element, at: nat, slots: int, depth: nat, parent: int): seq<MmsDataRef>
    requires WellFormed(e)
    decreases e, 1
  {
    var value := at + |e.id| + |e.len|;
    [MmsDataRef(slots - 1, depth, parent, MmsTypeFromTagOctet(e.id[0]), e.id[0], value, |BodyBytes(e.body)|)]
    + if e.body.Node? then Listing(e.body.children, value, slots - 1, depth + 1, slots - 1) else []
  }

  lemma {:induction false} ListingSize(es: seq<Element>, at: nat, slots: int, depth: nat, parent: int)
    requires WellFormedForest(es)
    ensures |Listing(es, at, slots, depth, parent)| == Size(es)
    decreases es, 0
  {
    hide ListingOf, ElementBytes;
    if es != [] {
      ListingOfSize(es[0], at, slots, depth, parent);
      ListingSize(es[1..], at + |ElementBytes(es[0])|, slots - SizeOf(es[0]), depth, parent);
    }
  }

  lemma {:induction false} ListingOfSize(e: Element, at: nat, slots: int, depth: nat, parent: int)
    requires WellFormed(e)
    ensures |ListingOf(e, at, slots, depth, parent)| == SizeOf(e)
    decreases e, 1
  {
    hide Listing;
    if e.body.Node? {
      ListingSize(e.body.children, at + |e.id| + |e.len|, slots - 1, depth + 1, slots - 1);
    }
  }

  /** All of the listing, or its first `capacity` entries. */
  function Outcome(listing: seq<MmsDataRef>, capacity: nat): MmsParse {
    if |listing| <= capacity then MmsParse(GooseOk, listing) else MmsParse(ErrTooManyMms, listing[..capacity])
  }

  lemma OutcomeIs(listing: seq<MmsDataRef>, capacity: nat)
    ensures Outcome(listing, capacity).status == if |listing| <= capacity then GooseOk else ErrTooManyMms
    ensures |listing| <= capacity ==> Outcome(listing, capacity).entries == listing
    ensures |listing| > capacity ==> Outcome(listing, capacity).entries == listing[..capacity]
  {
  }

  lemma OutcomeSplits(first: seq<MmsDataRef>, second: seq<MmsDataRef>, capacity: nat)
    requires |first| <= capacity
    ensures Outcome(first + second, capacity)
         == MmsParse(Outcome(second, capacity - |first|).status, first + Outcome(second, capacity - |first|).entries)
  {
    if |first + second| > capacity {
      assert (first + second)[..capacity] == first + second[..capacity - |first|];
    }
  }

  lemma OutcomeStops(first: seq<MmsDataRef>, second: seq<MmsDataRef>, capacity: nat)
    requires |first| > capacity
    ensures Outcome(first + second, capacity) == Outcome(first, capacity)
  {
    assert (first + second)[..capacity] == first[..capacity];
  }

  /** For every forest of well-formed elements the parser fills the slots from the
      top down with the pre-order listing; short of capacity it reports that, with
      every slot filled by the first nodes. */
  lemma {:induction false} Flattening(buf: seq<Byte>, off: nat, es: seq<Element>, capacity: nat, depth: nat,
      parent: int)
    requires WellFormedForest(es) && StandsAt(buf, off, ForestBytes(es))
    ensures ParseMms(buf, off + |ForestBytes(es)|, off, capacity, depth, parent)
         == Outcome(Listing(es, off, capacity, depth, parent), capacity)
    decreases es, 0
  {
    hide NextTlv, ElementBytes, ListingOf, ChildrenOf, EntryOf, LengthOctets, Identifier, SizeOf, TagOf;
    var limit := off + |ForestBytes(es)|;
    if es != [] {
      var e := es[0];
      StandsParts(buf, off, ElementBytes(e), ForestBytes(es[1..]));
      ElementReads(buf, limit, off, e);
      var first := ListingOf(e, off, capacity, depth, parent);
      var second := Listing(es[1..], off + |ElementBytes(e)|, capacity - SizeOf(e), depth, parent);
      assert Listing(es, off, capacity, depth, parent) == first + second;
      ListingOfSize(e, off, capacity, depth, parent);
      HeadParsed(buf, limit, off, capacity, depth, parent);
      hide ParseMms, Listing;
      if capacity == 0 {
        SizePositive(e);
      } else {
        ElementFlattens(buf, limit, off, e, capacity, depth, parent);
        OutcomeIs(first, capacity);
        hide Outcome;
        if |first| <= capacity {
          Flattening(buf, off + |ElementBytes(e)|, es[1..], capacity - |first|, depth, parent);
          OutcomeSplits(first, second, capacity);
        } else {
          OutcomeStops(first, second, capacity);
        }
      }
    }
  }

  /** The walk, its first element taken off. */
  lemma HeadParsed(buf: seq<Byte>, limit: nat, off: nat, capacity: nat, depth: nat, parent: int)
    requires off < limit <= |buf| && NextTlv(buf, limit, off).Some?
    ensures var whole := ParseMms(buf, limit, off, capacity, depth, parent);
      if capacity == 0 then whole == MmsParse(ErrTooManyMms, [])
      else
        var t := NextTlv(buf, limit, off).value;
        var r := ChildrenOf(buf, t, capacity - 1, depth);
        var head := [EntryOf(t, capacity - 1, depth, parent)] + r.entries;
        if r.status != GooseOk then whole == MmsParse(r.status, head)
        else
          var rest := ParseMms(buf, limit, off + t.tlvLen, capacity - |head|, depth, parent);
          whole == MmsParse(rest.status, head + rest.entries)
  {
    hide NextTlv, ChildrenOf, EntryOf;
  }

  lemma SizePositive(e: Element)
    ensures SizeOf(e) > 0
  {
  }

  /** The same for one element: its entry and what its children leave. */
  lemma {:induction false} ElementFlattens(buf: seq<Byte>, limit: nat, off: nat, e: Element, capacity: nat, depth: nat,
      parent: int)
    requires WellFormed(e) && StandsAt(buf, off, ElementBytes(e)) && off + |ElementBytes(e)| <= limit <= |buf|
      && capacity > 0
    ensures NextTlv(buf, limit, off).Some?
    ensures var t := NextTlv(buf, limit, off).value; var r := ChildrenOf(buf, t, capacity - 1, depth);
      MmsParse(r.status, [EntryOf(t, capacity - 1, depth, parent)] + r.entries)
        == Outcome(ListingOf(e, off, capacity, depth, parent), capacity)
    decreases e, 1
  {
    hide NextTlv, ElementBytes, LengthOctets, Listing, ParseMms;
    ElementReads(buf, limit, off, e);
    var t := TlvOf(e, off);
    var entry := EntryOf(t, capacity - 1, depth, parent);
    if e.body.Node? {
      Flattening(buf, t.value, e.body.children, capacity - 1, depth + 1, capacity - 1);
      OutcomeSplits([entry], Listing(e.body.children, t.value, capacity - 1, depth + 1, capacity - 1), capacity);
    }
  }

  /** Conversely, success means the octets are a forest that fits. */
  lemma {:induction false} OkMeansForest(buf: seq<Byte>, limit: nat, off: nat, capacity: nat, depth: nat, parent: int)
    requires off <= limit <= |buf| && ParseMms(buf, limit, off, capacity, depth, parent).status == GooseOk
    ensures ForestAt(buf, limit, off).Some?
    decreases limit - off, 0
  {
    hide NextTlv, EntryOf, ElementFrom;
    if off < limit {
      var t := NextTlv(buf, limit, off).value;
      if t.tag.constructed {
        OkMeansForest(buf, t.value + t.valueLen, t.value, capacity - 1, depth + 1, capacity - 1);
      }
      var used := 1 + |ChildrenOf(buf, t, capacity - 1, depth).entries|;
      OkMeansForest(buf, limit, off + t.tlvLen, capacity - used, depth, parent);
    }
  }

  /** Exactly the encodings of forests that fit are parsed successfully, and then
      the entries are the pre-order listing. */
  lemma MmsOkIff(buf: seq<Byte>, limit: nat, off: nat, capacity: nat, depth: nat, parent: int)
    requires off <= limit <= |buf|
    ensures var r := ParseMms(buf, limit, off, capacity, depth, parent); var f := ForestAt(buf, limit, off);
      && (r.status == GooseOk <==> f.Some? && Size(f.value) <= capacity)
      && (f.Some? ==>
            WellFormedForest(f.value) && r == Outcome(Listing(f.value, off, capacity, depth, parent), capacity))
      && (r.status == GooseOk ==> |r.entries| == Size(f.value))
  {
    hide ParseMms, ForestAt, Listing, WellFormedForest, ForestBytes, Size;
    var f := ForestAt(buf, limit, off);
    if f.Some? {
      ForestAtIff(buf, limit, off, f.value);
      Flattening(buf, off, f.value, capacity, depth, parent);
      ListingSize(f.value, off, capacity, depth, parent);
    } else if ParseMms(buf, limit, off, capacity, depth, parent).status == GooseOk {
      OkMeansForest(buf, limit, off, capacity, depth, parent);
    }
  }

  // ---- Entries of arbitrary octets --------------------------------------------

  /** Entry k names its own slot, and is either a top entry within the window or a
      child, one level deeper and within the value, of an earlier entry. */
  ghost predicate Anchored(entries: seq<MmsDataRef>, k: nat, capacity: int, limit: nat, off: nat, depth: nat,
      parent: int)
    requires k < |entries|
  {
    && entries[k].index == capacity - 1 - k
    && ( || (entries[k].parentIndex == parent && entries[k].depth == depth && WithinSpan(entries[k], off, limit))
         || exists j :: 0 <= j < k && ChildOf(entries[k], entries[j]))
  }

  ghost predicate AllAnchored(entries: seq<MmsDataRef>, capacity: int, limit: nat, off: nat, depth: nat, parent: int) {
    forall k :: 0 <= k < |entries| ==> Anchored(entries, k, capacity, limit, off, depth, parent)
  }

  predicate WithinSpan(e: MmsDataRef, from: nat, to: nat) {
    from < e.value && e.value + e.valueLen <= to
  }

  predicate ChildOf(child: MmsDataRef, e: MmsDataRef) {
    child.parentIndex == e.index && child.depth == e.depth + 1 && WithinSpan(child, e.value, e.value + e.valueLen)
  }

  /** Whatever the octets, and however the parse ends, every entry is anchored. */
  lemma {:induction false} EntriesAnchored(buf: seq<Byte>, limit: nat, off: nat, capacity: nat, depth: nat, parent: int)
    requires limit <= |buf|
    ensures AllAnchored(ParseMms(buf, limit, off, capacity, depth, parent).entries, capacity, limit, off, depth, parent)
    decreases limit - off, 0
  {
    hide NextTlv;
    if off < limit && NextTlv(buf, limit, off).Some? && capacity > 0 {
      var t := NextTlv(buf, limit, off).value;
      var children := ChildrenOf(buf, t, capacity - 1, depth);
      var entry := EntryOf(t, capacity - 1, depth, parent);
      var upToHere := [entry] + children.entries;
      if t.tag.constructed {
        EntriesAnchored(buf, t.value + t.valueLen, t.value, capacity - 1, depth + 1, capacity - 1);
      }
      HeadAnchored(entry, children.entries, t, capacity, limit, off, depth, parent);
      if children.status == GooseOk {
        var rest := ParseMms(buf, limit, off + t.tlvLen, capacity - |upToHere|, depth, parent).entries;
        EntriesAnchored(buf, limit, off + t.tlvLen, capacity - |upToHere|, depth, parent);
        TailAnchored(upToHere, rest, capacity, limit, off, off + t.tlvLen, depth, parent);
      }
    }
  }

  lemma HeadAnchored(entry: MmsDataRef, children: seq<MmsDataRef>, t: BerTlv, capacity: nat, limit: nat, off: nat,
      depth: nat, parent: int)
    requires capacity > 0 && off < t.value && t.value + t.valueLen <= limit
    requires entry == EntryOf(t, capacity - 1, depth, parent)
    requires AllAnchored(children, capacity - 1, t.value + t.valueLen, t.value, depth + 1, capacity - 1)
    ensures AllAnchored([entry] + children, capacity, limit, off, depth, parent)
  {
    var all := [entry] + children;
    forall k | 0 <= k <= |children|
      ensures Anchored(all, k, capacity, limit, off, depth, parent)
    {
      if k > 0 {
        assert Anchored(children, k - 1, capacity - 1, t.value + t.valueLen, t.value, depth + 1, capacity - 1);
        if j :| 0 <= j < k - 1 && ChildOf(children[k - 1], children[j]) {
          assert ChildOf(all[k], all[j + 1]);
        } else {
          assert ChildOf(all[k], all[0]);
        }
      }
    }
  }

  lemma TailAnchored(first: seq<MmsDataRef>, rest: seq<MmsDataRef>, capacity: nat, limit: nat, off: nat, next: nat,
      depth: nat, parent: int)
    requires off <= next
    requires AllAnchored(first, capacity, limit, off, depth, parent)
    requires AllAnchored(rest, capacity - |first|, limit, next, depth, parent)
    ensures AllAnchored(first + rest, capacity, limit, off, depth, parent)
  {
    var all := first + rest;
    forall k | 0 <= k < |all|
      ensures Anchored(all, k, capacity, limit, off, depth, parent)
    {
      if k < |first| {
        assert Anchored(first, k, capacity, limit, off, depth, parent);
        if j :| 0 <= j < k && ChildOf(first[k], first[j]) {
          assert ChildOf(all[k], all[j]);
        }
      } else {
        var m := k - |first|;
        assert Anchored(rest, m, capacity - |first|, limit, next, depth, parent);
        if j :| 0 <= j < m && ChildOf(rest[m], rest[j]) {
          assert ChildOf(all[k], all[j + |first|]);
        }
      }
    }
  }

  /** So every entry lies within the window, its ancestors around it. */
  lemma {:induction false} EntriesInside(entries: seq<MmsDataRef>, k: nat, capacity: int, limit: nat, off: nat,
      depth: nat, parent: int)
    requires k < |entries| && AllAnchored(entries, capacity, limit, off, depth, parent)
    ensures WithinSpan(entries[k], off, limit)
    decreases k
  {
    assert Anchored(entries, k, capacity, limit, off, depth, parent);
    if j :| 0 <= j < k && ChildOf(entries[k], entries[j]) {
      EntriesInside(entries, j, capacity, limit, off, depth, parent);
    }
  }

  // ---- Which error -------------------------------------------------------------------

  /** There are at most as many entries as octets. */
  lemma {:induction false} EntriesFew(buf: seq<Byte>, limit: nat, off: nat, capacity: nat, depth: nat, parent: int)
    requires off <= limit <= |buf|
    ensures |ParseMms(buf, limit, off, capacity, depth, parent).entries| <= limit - off
    decreases limit - off
  {
    hide NextTlv, EntryOf;
    if off < limit && NextTlv(buf, limit, off).Some? && capacity > 0 {
      var t := NextTlv(buf, limit, off).value;
      if t.tag.constructed {
        EntriesFew(buf, t.value + t.valueLen, t.value, capacity - 1, depth + 1, capacity - 1);
      }
      var used := 1 + |ChildrenOf(buf, t, capacity - 1, depth).entries|;
      EntriesFew(buf, limit, off + t.tlvLen, capacity - used, depth, parent);
    }
  }

  /** With a slot for every octet, octets that are no forest are a BER error. */
  lemma {:induction false} MmsErrors(buf: seq<Byte>, limit: nat, off: nat, capacity: nat, depth: nat, parent: int)
    requires off <= limit <= |buf| && limit - off <= capacity
    ensures ParseMms(buf, limit, off, capacity, depth, parent).status == if ForestAt(buf, limit, off).Some?
      then GooseOk else ErrBer
    decreases limit - off
  {
    hide NextTlv, EntryOf, ElementFrom;
    if off < limit && NextTlv(buf, limit, off).Some? {
      var t := NextTlv(buf, limit, off).value;
      var children := ChildrenOf(buf, t, capacity - 1, depth);
      if t.tag.constructed {
        MmsErrors(buf, t.value + t.valueLen, t.value, capacity - 1, depth + 1, capacity - 1);
        EntriesFew(buf, t.value + t.valueLen, t.value, capacity - 1, depth + 1, capacity - 1);
      }
      MmsErrors(buf, limit, off + t.tlvLen, capacity - 1 - |children.entries|, depth, parent);
    }
  }
}
