/** Merging partial peerstore entries: latest value wins, except where a sequence number decides. */
module Merge {
  import opened Common

  datatype ENRData = ENRData(num: Uint64, raw: string)

  /** The contents of an Eth2Data object. */
  datatype Eth2Value = Eth2Value(metadata: Option<MetaData>, claim: Uint64, status: Option<string>, enr: Option<ENRData>)

  /** The contents of an entry; the strings and lists are opaque here. */
  datatype EntryValue = EntryValue(
    eth2: Option<Eth2Value>,
    addrRecords: Option<string>,
    protocols: Option<seq<string>>,
    protocolVersion: string,
    userAgent: string,
    pubkey: string,
    nodeID: string)

  const NOTHING: EntryValue := EntryValue(None, None, None, "", "", "", "")

  function Latest<T>(a: Option<T>, b: Option<T>): Option<T> {
    if b.Some? then b else a
  }

  function LatestText(a: string, b: string): string {
    if b != "" then b else a
  }

  function MergedEth2(a: Eth2Value, b: Eth2Value): Eth2Value {
    Eth2Value(
      if b.metadata.Some? && (a.metadata.None? || b.metadata.value.seqNumber > a.metadata.value.seqNumber) then b.metadata else a.metadata,
      if b.claim > a.claim then b.claim else a.claim,
      Latest(a.status, b.status),
      if b.enr.Some? && (a.enr.None? || b.enr.value.num > a.enr.value.num) then b.enr else a.enr)
  }

  function Merged(a: EntryValue, b: EntryValue): EntryValue {
    EntryValue(
      if a.eth2.Some? && b.eth2.Some? then Some(MergedEth2(a.eth2.value, b.eth2.value)) else Latest(a.eth2, b.eth2),
      Latest(a.addrRecords, b.addrRecords),
      Latest(a.protocols, b.protocols),
      LatestText(a.protocolVersion, b.protocolVersion),
      LatestText(a.userAgent, b.userAgent),
      LatestText(a.pubkey, b.pubkey),
      LatestText(a.nodeID, b.nodeID))
  }

  /** Merging a list of entries into one, first to last. */
  function MergedAll(p: EntryValue, entries: seq<EntryValue>): EntryValue
    decreases |entries|
  {
    if entries == [] then p else MergedAll(Merged(p, entries[0]), entries[1..])
  }

  lemma MergeAssociative(a: EntryValue, b: EntryValue, c: EntryValue)
    ensures Merged(Merged(a, b), c) == Merged(a, Merged(b, c))
    ensures Merged(a, NOTHING) == a == Merged(NOTHING, a)
  {
  }

  /** Folding entries does not depend on bracketing: pre-merging any stretch of updates changes nothing. */
  lemma {:induction false} MergeInGroups(p: EntryValue, xs: seq<EntryValue>, ys: seq<EntryValue>)
    ensures MergedAll(p, xs + ys) == Merged(MergedAll(p, xs), MergedAll(NOTHING, ys))
    decreases |xs| + |ys|
  {
    if xs != [] {
      assert (xs + ys)[1..] == xs[1..] + ys;
      MergeInGroups(Merged(p, xs[0]), xs[1..], ys);
    } else if ys != [] {
      assert xs + ys == ys;
      assert [] + ys[1..] == ys[1..];
      MergeInGroups(Merged(p, ys[0]), [], ys[1..]);
      MergeInGroups(Merged(NOTHING, ys[0]), [], ys[1..]);
      MergeAssociative(p, ys[0], MergedAll(NOTHING, ys[1..]));
    } else {
      assert xs + ys == [];
      MergeAssociative(p, p, p);
    }
  }

  /** The numbers of which a merge keeps the greater. */
  datatype Number = Claim | MetadataSeq | RecordSeq

  /** A number of an entry: 0 for a claim there is not, -1 for the sequence number of metadata or a node record there is not. */
  function NumberOf(f: Number, p: EntryValue): int {
    match f
    case Claim => if p.eth2.Some? then p.eth2.value.claim else 0
    case MetadataSeq => if p.eth2.Some? && p.eth2.value.metadata.Some? then p.eth2.value.metadata.value.seqNumber else -1
    case RecordSeq => if p.eth2.Some? && p.eth2.value.enr.Some? then p.eth2.value.enr.value.num else -1
  }

  lemma MergedNumber(f: Number, a: EntryValue, b: EntryValue)
    ensures NumberOf(f, Merged(a, b)) == Max(NumberOf(f, a), NumberOf(f, b))
  {
  }

  ghost predicate GreatestOf(f: Number, x: int, p: EntryValue, entries: seq<EntryValue>) {
    && NumberOf(f, p) <= x && (forall e :: e in entries ==> NumberOf(f, e) <= x)
    && (x == NumberOf(f, p) || exists e :: e in entries && x == NumberOf(f, e))
  }

  /** One more entry in front of a list whose greatest number is known. */
  lemma {:induction false} GreatestOfCons(f: Number, x: int, p: EntryValue, p': EntryValue, e: EntryValue, rest: seq<EntryValue>)
    requires NumberOf(f, p') == Max(NumberOf(f, p), NumberOf(f, e)) && GreatestOf(f, x, p', rest)
    ensures GreatestOf(f, x, p, [e] + rest)
  {
    var entries := [e] + rest;
    assert entries[0] == e;
    forall y | y in entries
      ensures NumberOf(f, y) <= x
    {
      assert y == e || y in rest;
    }
    if x != NumberOf(f, p') {
      var y :| y in rest && x == NumberOf(f, y);
      assert y in entries;
    }
  }

  /** No number goes back: after any updates the claim and both sequence numbers are the greatest there were. */
  lemma {:induction false} NumbersAreMaxima(f: Number, p: EntryValue, entries: seq<EntryValue>)
    ensures GreatestOf(f, NumberOf(f, MergedAll(p, entries)), p, entries)
    decreases |entries|
  {
    if entries != [] {
      var e, rest := entries[0], entries[1..];
      var p' := Merged(p, e);
      NumbersAreMaxima(f, p', rest);
      MergedNumber(f, p, e);
      GreatestOfCons(f, NumberOf(f, MergedAll(p', rest)), p, p', e, rest);
      assert entries == [e] + rest;
    }
  }

  /** The i-th of the entries has the greatest number, and none before it has. */
  ghost predicate FirstGreatest(f: Number, all: seq<EntryValue>, i: nat) {
    && i < |all|
    && (forall j :: 0 <= j < i ==> NumberOf(f, all[j]) < NumberOf(f, all[i]))
    && (forall j :: i < j < |all| ==> NumberOf(f, all[j]) <= NumberOf(f, all[i]))
  }

  /** Both entries have the same metadata, or node record, or claim. */
  predicate SameNumbered(f: Number, a: EntryValue, b: EntryValue) {
    match f
    case Claim => NumberOf(f, a) == NumberOf(f, b)
    case MetadataSeq => (if a.eth2.Some? then a.eth2.value.metadata else None) == if b.eth2.Some? then b.eth2.value.metadata else None
    case RecordSeq => (if a.eth2.Some? then a.eth2.value.enr else None) == if b.eth2.Some? then b.eth2.value.enr else None
  }

  lemma MergedNumbered(f: Number, a: EntryValue, b: EntryValue)
    ensures if NumberOf(f, b) > NumberOf(f, a) then SameNumbered(f, Merged(a, b), b) else SameNumbered(f, Merged(a, b), a)
  {
  }

  lemma MergedAllSnoc(p: EntryValue, entries: seq<EntryValue>, e: EntryValue)
    ensures MergedAll(p, entries + [e]) == Merged(MergedAll(p, entries), e)
  {
    MergeInGroups(p, entries, [e]);
    assert MergedAll(NOTHING, [e]) == MergedAll(Merged(NOTHING, e), [e][1..]) == e;
  }

  /** The metadata and the node record of a merged list are those of the first entry with the greatest number. */
  lemma {:induction false} FirstGreatestIsKept(f: Number, p: EntryValue, entries: seq<EntryValue>) returns (i: nat)
    ensures FirstGreatest(f, [p] + entries, i)
    ensures SameNumbered(f, MergedAll(p, entries), ([p] + entries)[i])
    decreases |entries|
  {
    if entries == [] {
      i := 0;
    } else {
      var front, e := entries[..|entries| - 1], entries[|entries| - 1];
      var k := FirstGreatestIsKept(f, p, front);
      MergedAllSnoc(p, front, e);
      MergedNumbered(f, MergedAll(p, front), e);
      assert entries == front + [e];
      assert [p] + entries == ([p] + front) + [e];
      i := if NumberOf(f, e) > NumberOf(f, MergedAll(p, front)) then |entries| else k;
      FirstGreatestSnoc(f, [p] + front, k, e);
    }
  }

  lemma FirstGreatestSnoc(f: Number, all: seq<EntryValue>, k: nat, e: EntryValue)
    requires FirstGreatest(f, all, k)
    ensures if NumberOf(f, e) > NumberOf(f, all[k]) then FirstGreatest(f, all + [e], |all|) else FirstGreatest(f, all + [e], k)
  {
    var more := all + [e];
    assert more[|all|] == e && forall j :: 0 <= j < |all| ==> more[j] == all[j];
  }

  /** The fields of which a merge keeps the latest. */
  datatype Field = Status | AddrRecords | Protocols | ProtocolVersion | UserAgent | Pubkey | NodeID

  predicate Gives(f: Field, p: EntryValue) {
    match f
    case Status => p.eth2.Some? && p.eth2.value.status.Some?
    case AddrRecords => p.addrRecords.Some?
    case Protocols => p.protocols.Some?
    case ProtocolVersion => p.protocolVersion != ""
    case UserAgent => p.userAgent != ""
    case Pubkey => p.pubkey != ""
    case NodeID => p.nodeID != ""
  }

  predicate SameField(f: Field, a: EntryValue, b: EntryValue) {
    match f
    case Status => (if a.eth2.Some? then a.eth2.value.status else None) == if b.eth2.Some? then b.eth2.value.status else None
    case AddrRecords => a.addrRecords == b.addrRecords
    case Protocols => a.protocols == b.protocols
    case ProtocolVersion => a.protocolVersion == b.protocolVersion
    case UserAgent => a.userAgent == b.userAgent
    case Pubkey => a.pubkey == b.pubkey
    case NodeID => a.nodeID == b.nodeID
  }

  lemma MergedField(f: Field, a: EntryValue, b: EntryValue)
    ensures SameField(f, Merged(a, b), if Gives(f, b) then b else a)
    ensures Gives(f, Merged(a, b)) <==> Gives(f, a) || Gives(f, b)
  {
  }

  /** The last of the entries that gives a field, where the entry merged into counts first. */
  ghost predicate LastToGive(f: Field, all: seq<EntryValue>, i: nat) {
    && i < |all| && (i > 0 ==> Gives(f, all[i]))
    && forall j :: i < j < |all| ==> !Gives(f, all[j])
  }

  /** Status, records, protocols and texts of a merged list are those of the last entry that gives them. */
  lemma {:induction false} LastGivenIsKept(f: Field, p: EntryValue, entries: seq<EntryValue>) returns (i: nat)
    ensures LastToGive(f, [p] + entries, i)
    ensures SameField(f, MergedAll(p, entries), ([p] + entries)[i])
    decreases |entries|
  {
    if entries == [] {
      i := 0;
    } else {
      var front, e := entries[..|entries| - 1], entries[|entries| - 1];
      var k := LastGivenIsKept(f, p, front);
      MergedAllSnoc(p, front, e);
      MergedField(f, MergedAll(p, front), e);
      assert entries == front + [e];
      assert [p] + entries == ([p] + front) + [e];
      i := if Gives(f, e) then |entries| else k;
    }
  }

  // ---------- the objects ----------

  class Eth2Data {
    var metadata: Option<MetaData>
    var claim: Uint64
    var status: Option<string>
    var enr: Option<ENRData>

    constructor (v: Eth2Value)
      ensures Value() == v
    {
      metadata, claim, status, enr := v.metadata, v.claim, v.status, v.enr;
    }

    function Value(): Eth2Value
      reads this
    {
      Eth2Value(metadata, claim, status, enr)
    }

    method Absorb(other: Eth2Data)
      modifies this
      ensures Value() == MergedEth2(old(Value()), old(other.Value()))
    {
      if other.enr.Some? {
        // only ever update the node record forwards
        if enr.None? || other.enr.value.num > enr.value.num {
          enr := other.enr;
        }
      }
      if other.status.Some? {
        status := other.status;
      }
      if other.claim > claim {
        claim := other.claim;
      }
      if other.metadata.Some? {
        // only ever update metadata forwards
        if metadata.None? || other.metadata.value.seqNumber > metadata.value.seqNumber {
          metadata := other.metadata;
        }
      }
    }
  }

  class PartialPeerstoreEntry {
    var eth2: Eth2Data?
    var addrRecords: Option<string>
    var protocols: Option<seq<string>>
    var protocolVersion: string
    var userAgent: string
    var pubkey: string
    var nodeID: string

    constructor (eth2: Eth2Data?)
      ensures this.eth2 == eth2
      ensures addrRecords == None && protocols == None && protocolVersion == userAgent == pubkey == nodeID == ""
    {
      this.eth2, addrRecords, protocols := eth2, None, None;
      protocolVersion, userAgent, pubkey, nodeID := "", "", "", "";
    }

    function Value(): EntryValue
      reads this, if eth2 == null then {} else {eth2}
    {
      EntryValue(if eth2 == null then None else Some(eth2.Value()), addrRecords, protocols,
                 protocolVersion, userAgent, pubkey, nodeID)
    }

    method MergeEth2(other: PartialPeerstoreEntry)
      modifies this`eth2, if eth2 == null then {} else {eth2}
      ensures eth2 == if old(eth2) == null then old(other.eth2) else old(eth2)
      ensures Value() == old(Value()).(eth2 := Merged(old(Value()), old(other.Value())).eth2)
    {
      if other.eth2 != null {
        if eth2 == null {
          eth2 := other.eth2;
        } else {
          eth2.Absorb(other.eth2);
        }
      }
    }

    /** Merge: where there was no eth2 part the other entry's object itself is taken over. */
    method Merge(other: PartialPeerstoreEntry)
      modifies this, if eth2 == null then {} else {eth2}
      ensures Value() == Merged(old(Value()), old(other.Value()))
      ensures eth2 == if old(eth2) == null then old(other.eth2) else old(eth2)
    {
      MergeEth2(other);
      if other.addrRecords.Some? {
        addrRecords := other.addrRecords;
      }
      if other.protocols.Some? {
        protocols := other.protocols;
      }
      MergeTexts(other);
    }

    method MergeTexts(other: PartialPeerstoreEntry)
      modifies this`protocolVersion, this`userAgent, this`pubkey, this`nodeID
      ensures protocolVersion == LatestText(old(protocolVersion), old(other.protocolVersion))
      ensures userAgent == LatestText(old(userAgent), old(other.userAgent))
      ensures pubkey == LatestText(old(pubkey), old(other.pubkey))
      ensures nodeID == LatestText(old(nodeID), old(other.nodeID))
    {
      if other.protocolVersion != "" {
        protocolVersion := other.protocolVersion;
      }
      if other.userAgent != "" {
        userAgent := other.userAgent;
      }
      if other.pubkey != "" {
        pubkey := other.pubkey;
      }
      if other.nodeID != "" {
        nodeID := other.nodeID;
      }
    }
  }

  /** The third entry holds the first one's eth2 object, and the second brings a different status. */
  ghost predicate StatusOverwritten(p: PartialPeerstoreEntry, q: PartialPeerstoreEntry, r: PartialPeerstoreEntry)
    reads p, q, r, if p.eth2 == null then {} else {p.eth2}, if q.eth2 == null then {} else {q.eth2}
  {
    && p.eth2 != null && p.eth2 == r.eth2 && q.eth2 != null
    && p.eth2.status.Some? && q.eth2.status.Some? && p.eth2.status != q.eth2.status
  }

  /**
   Merging q and then r into p. On values grouping makes no difference; on objects r's eth2
   part may be p's own, and has then taken over q's status by the time it is merged. The
   outcome is that of the values exactly when that does not happen.
   */
  method MergeInTurn(p: PartialPeerstoreEntry, q: PartialPeerstoreEntry, r: PartialPeerstoreEntry)
    requires p != q && p != r
    modifies p, if p.eth2 == null then {} else {p.eth2}, if q.eth2 == null then {} else {q.eth2}
    ensures p.Value() == Merged(Merged(old(p.Value()), old(q.Value())), old(r.Value())) <==> !old(StatusOverwritten(p, q, r))
  {
    ghost var vp, vq, vr := p.Value(), q.Value(), r.Value();
    ghost var shared := p.eth2 != null && p.eth2 == r.eth2;
    p.Merge(q);
    if p.eth2 != null && p.eth2 == r.eth2 {
      assert shared || vq.eth2 == vr.eth2;
    } else {
      assert r.Value() == vr;
    }
    p.Merge(r);
  }

  /** Merging r into q first and the result into p gives the outcome of the values, however eth2 parts are shared. */
  method MergeGrouped(p: PartialPeerstoreEntry, q: PartialPeerstoreEntry, r: PartialPeerstoreEntry)
    requires p != q && p != r
    modifies p, q, if p.eth2 == null then {} else {p.eth2}, if q.eth2 == null then {} else {q.eth2}
    ensures p.Value() == Merged(old(p.Value()), Merged(old(q.Value()), old(r.Value())))
  {
    ghost var vp, vq, vr := p.Value(), q.Value(), r.Value();
    q.Merge(r);
    if p.eth2 != null && p.eth2 == q.eth2 {
      assert p.Value().eth2 == Merged(vp, Merged(vq, vr)).eth2;
    } else {
      assert p.Value() == vp;
    }
    p.Merge(q);
  }

  /** An entry merged into an empty one shares its eth2 part: the next merge writes through to it. */
  method MergeWritesThrough(first: Eth2Value, second: Eth2Value) returns (merged: Eth2Value, firstAfter: Eth2Value)
    ensures merged == firstAfter == MergedEth2(first, second)
  {
    var a := new Eth2Data(first);
    var b := new Eth2Data(second);
    var ea := new PartialPeerstoreEntry(a);
    var eb := new PartialPeerstoreEntry(b);
    var p := new PartialPeerstoreEntry(null);
    p.Merge(ea);
    assert p.eth2 == a;
    p.Merge(eb);
    merged, firstAfter := p.eth2.Value(), ea.eth2.Value();
  }
}
