/** Peer metadata and claimed sequence numbers: a cache over a datastore, written through and read through. */
module MetadataBook {
  import opened Common

  // ---------- claims as stored bytes ----------

  /** The k low bytes of x, least significant first: binary.LittleEndian.PutUint64 for k = 8. */
  function LittleEndian(x: nat, k: nat): (s: seq<Byte>)
    ensures |s| == k
  {
    if k == 0 then [] else [x % 0x100] + LittleEndian(x / 0x100, k - 1)
  }

  function FromLittleEndian(s: seq<Byte>): nat {
    if s == [] then 0 else s[0] + 0x100 * FromLittleEndian(s[1..])
  }

  function Pow256(k: nat): nat {
    if k == 0 then 1 else 0x100 * Pow256(k - 1)
  }

  lemma {:induction false} LittleEndianRoundTrip(x: nat, k: nat)
    requires x < Pow256(k)
    ensures FromLittleEndian(LittleEndian(x, k)) == x
  {
    if k > 0 {
      LittleEndianRoundTrip(x / 0x100, k - 1);
    }
  }

  lemma {:induction false} LittleEndianDigits(x: nat, k: nat, i: nat)
    requires i < k
    ensures Pow256(i) > 0 && LittleEndian(x, k)[i] == x / Pow256(i) % 0x100
  {
    if i > 0 {
      LittleEndianDigits(x / 0x100, k - 1, i - 1);
      DivTwice(x, Pow256(i - 1));
    }
  }

  lemma DivTwice(x: nat, w: nat)
    requires w > 0
    ensures x / 0x100 / w == x / (0x100 * w)
  {
    var a, b := x / 0x100, x / 0x100 / w;
    assert b * w <= a < (b + 1) * w;
    assert 0x100 * a <= x < 0x100 * (a + 1);
    Quotient(x, 0x100 * w, b);
  }

  /** The i-th of the eight stored bytes is the i-th byte of the claim, and reading them back gives the claim. */
  lemma ClaimBytes(x: Uint64)
    ensures FromLittleEndian(LittleEndian(x, 8)) == x
    ensures forall i: nat :: i < 8 ==> Pow256(i) > 0 && LittleEndian(x, 8)[i] == x / Pow256(i) % 0x100
  {
    assert Pow256(4) == 0x1_0000_0000;
    assert Pow256(8) == 0x1_0000_0000 * Pow256(4);
    LittleEndianRoundTrip(x, 8);
    forall i: nat | i < 8
      ensures Pow256(i) > 0 && LittleEndian(x, 8)[i] == x / Pow256(i) % 0x100
    {
      LittleEndianDigits(x, 8, i);
    }
  }

  // ---------- the book as a value ----------

  /** Cached metadata, claims and fetch counters, and what the datastore holds. */
  datatype Book = Book(
    metadatas: map<PeerID, MetaData>,
    claims: map<PeerID, Uint64>,
    fetches: map<PeerID, nat>,
    storedMetas: map<PeerID, MetaData>,
    storedClaims: map<PeerID, Uint64>)
  {
    function Fetches(p: PeerID): nat {
      if p in fetches then fetches[p] else 0
    }

    /** The claim as RegisterMetadata sees it: the cached one, 0 if there is none. */
    function CachedClaim(p: PeerID): Uint64 {
      if p in claims then claims[p] else 0
    }

    /** The claim a lookup would find, 0 if there is none. */
    function KnownClaim(p: PeerID): Uint64 {
      if p in claims then claims[p] else if p in storedClaims then storedClaims[p] else 0
    }
  }

  const EMPTY: Book := Book(map[], map[], map[], map[], map[])

  /** Which datastore calls succeed during one operation. */
  datatype Env = Env(getMeta: bool, getClaim: bool, putMeta: bool, putClaim: bool)

  const ALL_OK: Env := Env(true, true, true, true)

  function FoundMeta(b: Book, p: PeerID, env: Env): Option<MetaData> {
    if p in b.metadatas then Some(b.metadatas[p])
    else if env.getMeta && p in b.storedMetas then Some(b.storedMetas[p])
    else None
  }

  function FoundClaim(b: Book, p: PeerID, env: Env): Option<Uint64> {
    if p in b.claims then Some(b.claims[p])
    else if env.getClaim && p in b.storedClaims then Some(b.storedClaims[p])
    else None
  }

  /** A lookup caches what it finds. */
  function AfterMeta(b: Book, p: PeerID, env: Env): Book {
    var found := FoundMeta(b, p, env);
    if found.Some? then b.(metadatas := b.metadatas[p := found.value]) else b
  }

  function AfterClaim(b: Book, p: PeerID, env: Env): Book {
    var found := FoundClaim(b, p, env);
    if found.Some? then b.(claims := b.claims[p := found.value]) else b
  }

  datatype Op =
    | GetMeta(p: PeerID, env: Env)
    | GetClaim(p: PeerID, env: Env)
    | Claim(p: PeerID, num: Uint64, env: Env)
    | Fetch(p: PeerID)
    | Meta(p: PeerID, md: MetaData, env: Env)

  /** Whether a registration is news to the book. */
  function Newer(b: Book, op: Op): bool {
    match op
    case Claim(p, num, env) =>
      var found := FoundClaim(b, p, env);
      found.None? || found.value < num
    case Meta(p, md, env) =>
      var found := FoundMeta(b, p, env);
      found.None? || found.value.seqNumber < md.seqNumber
    case _ => false
  }

  function StoreClaim(b: Book, p: PeerID, num: Uint64, env: Env): Book {
    b.(claims := b.claims[p := num], storedClaims := if env.putClaim then b.storedClaims[p := num] else b.storedClaims)
  }

  function Apply(b: Book, op: Op): Book {
    match op
    case GetMeta(p, env) => AfterMeta(b, p, env)
    case GetClaim(p, env) => AfterClaim(b, p, env)
    case Claim(p, num, env) =>
      if Newer(b, op) then StoreClaim(AfterClaim(b, p, env), p, num, env) else AfterClaim(b, p, env)
    case Fetch(p) => b.(fetches := b.fetches[p := b.Fetches(p) + 1])
    case Meta(p, md, env) =>
      if Newer(b, op) then Accept(b, p, md, env) else AfterMeta(b, p, env)
  }

  /** New metadata replaces the old, lifts a lower claim, and settles the fetch counter if no higher claim is cached. */
  function Accept(b: Book, p: PeerID, md: MetaData, env: Env): Book {
    var b1 := b.(metadatas := b.metadatas[p := md],
                 storedMetas := if env.putMeta then b.storedMetas[p := md] else b.storedMetas,
                 fetches := if md.seqNumber >= b.CachedClaim(p) then b.fetches[p := 0] else b.fetches);
    if md.seqNumber > b.CachedClaim(p) then StoreClaim(b1, p, md.seqNumber, env) else b1
  }

  /** Whether an operation sets the fetch counter of its peer back to zero. */
  predicate Resets(b: Book, op: Op) {
    op.Meta? && Newer(b, op) && op.md.seqNumber >= b.CachedClaim(op.p)
  }

  function Run(b: Book, ops: seq<Op>): Book {
    if ops == [] then b else Apply(Run(b, ops[..|ops| - 1]), ops[|ops| - 1])
  }

  // ---------- the book as an object ----------

  class Datastore {
    var metas: map<PeerID, MetaData>
    var claims: map<PeerID, seq<Byte>>

    constructor ()
      ensures metas == map[] && claims == map[]
    {
      metas, claims := map[], map[];
    }

    ghost predicate Valid()
      reads this
    {
      forall p :: p in claims ==> |claims[p]| == 8 && FromLittleEndian(claims[p]) < TWO_64
    }
  }

  class DsMetadataBook {
    const ds: Datastore
    var metadatas: map<PeerID, MetaData>
    var claims: map<PeerID, Uint64>
    var fetches: map<PeerID, nat>

    ghost predicate Valid()
      reads this, ds
    {
      ds.Valid()
    }

    ghost function State(): Book
      requires Valid()
      reads this, ds
    {
      Book(metadatas, claims, fetches, ds.metas, map p | p in ds.claims :: FromLittleEndian(ds.claims[p]))
    }

    /** NewMetadataBook: nothing cached, whatever the datastore already holds. */
    constructor (ds: Datastore)
      requires ds.Valid()
      ensures Valid() && this.ds == ds
      ensures State().metadatas == map[] && State().claims == map[] && State().fetches == map[]
    {
      this.ds := ds;
      metadatas, claims, fetches := map[], map[], map[];
    }

    method StoreMetadata(p: PeerID, md: MetaData, ok: bool)
      requires Valid()
      modifies ds
      ensures Valid()
      ensures State() == old(State()).(storedMetas := if ok then old(ds.metas)[p := md] else old(ds.metas))
    {
      if ok {
        ds.metas := ds.metas[p := md];
      }
    }

    method PutClaim(p: PeerID, claim: Uint64, ok: bool)
      requires Valid()
      modifies ds
      ensures Valid()
      ensures State() == old(State()).(storedClaims := if ok then old(State()).storedClaims[p := claim] else old(State()).storedClaims)
      ensures ds.claims == if ok then old(ds.claims)[p := LittleEndian(claim, 8)] else old(ds.claims)
    {
      if ok {
        ClaimBytes(claim);
        ds.claims := ds.claims[p := LittleEndian(claim, 8)];
      }
    }

    method Metadata(id: PeerID, env: Env) returns (md: Option<MetaData>)
      requires Valid()
      modifies this
      ensures Valid()
      ensures md == FoundMeta(old(State()), id, env) && State() == Apply(old(State()), GetMeta(id, env))
    {
      if id in metadatas {
        return Some(metadatas[id]);
      }
      if !env.getMeta || id !in ds.metas {
        return None;
      }
      metadatas := metadatas[id := ds.metas[id]];
      md := Some(ds.metas[id]);
    }

    method ClaimedSeq(id: PeerID, env: Env) returns (num: Uint64, ok: bool)
      requires Valid()
      modifies this
      ensures Valid()
      ensures var found := FoundClaim(old(State()), id, env);
              ok == found.Some? && num == if ok then found.value else 0
      ensures State() == Apply(old(State()), GetClaim(id, env))
    {
      if id in claims {
        return claims[id], true;
      }
      if !env.getClaim || id !in ds.claims {
        return 0, false;
      }
      num := FromLittleEndian(ds.claims[id]);
      claims := claims[id := num];
      ok := true;
    }

    method RegisterSeqClaim(id: PeerID, num: Uint64, env: Env) returns (newer: bool)
      requires Valid()
      modifies this, ds
      ensures Valid()
      ensures newer == Newer(old(State()), Claim(id, num, env)) && State() == Apply(old(State()), Claim(id, num, env))
    {
      var dat, ok := ClaimedSeq(id, env);
      newer := !ok || dat < num;
      if newer {
        claims := claims[id := num];
        PutClaim(id, num, env.putClaim);
      }
    }

    method RegisterMetaFetch(id: PeerID) returns (count: nat)
      requires Valid()
      modifies this
      ensures Valid()
      ensures count == old(State()).Fetches(id) + 1 && State() == Apply(old(State()), Fetch(id))
    {
      count := if id in fetches then fetches[id] else 0;
      count := count + 1;
      fetches := fetches[id := count];
    }

    method RegisterMetadata(id: PeerID, md: MetaData, env: Env) returns (newer: bool)
      requires Valid()
      modifies this, ds
      ensures Valid()
      ensures newer == Newer(old(State()), Meta(id, md, env)) && State() == Apply(old(State()), Meta(id, md, env))
    {
      var dat := Metadata(id, env);
      newer := dat.None? || dat.value.seqNumber < md.seqNumber;
      if newer {
        assert old(State()).metadatas[id := md] == metadatas[id := md];
        AcceptMetadata(id, md, env);
      }
    }

    method AcceptMetadata(id: PeerID, md: MetaData, env: Env)
      requires Valid()
      modifies this, ds
      ensures Valid()
      ensures State() == Accept(old(State()), id, md, env)
    {
      var claimed := if id in claims then claims[id] else 0;
      if md.seqNumber >= claimed {
        fetches := fetches[id := 0];
      }
      metadatas := metadatas[id := md];
      StoreMetadata(id, md, env.putMeta);
      if md.seqNumber > claimed {
        claims := claims[id := md.seqNumber];
        PutClaim(id, md.seqNumber, env.putClaim);
      }
    }

    /** Writes cached claims, in any order, up to the first put that fails. */
    method FlushClaims(putOk: PeerID -> bool) returns (ghost done: set<PeerID>, ok: bool)
      requires Valid()
      modifies ds
      ensures Valid()
      ensures ok <==> forall p :: p in claims ==> putOk(p)
      ensures done <= claims.Keys && (ok ==> done == claims.Keys)
      ensures State() == FlushedOnly(old(State()), done, {})
    {
      done := {};
      ghost var b := State();
      OnlyNone(b);
      var ids := claims.Keys;
      while ids != {}
        invariant Valid() && ids <= claims.Keys && done == claims.Keys - ids
        invariant forall p :: p in done ==> putOk(p)
        invariant State() == FlushedOnly(b, done, {})
        decreases |ids|
      {
        var id :| id in ids;
        if !putOk(id) {
          return done, false;
        }
        OnlyOneMore(b.storedClaims, claims, done, id);
        PutClaim(id, claims[id], true);
        ids, done := ids - {id}, done + {id};
      }
      ok := true;
    }

    method FlushMetadatas(putOk: PeerID -> bool) returns (ghost done: set<PeerID>, ok: bool)
      requires Valid()
      modifies ds
      ensures Valid()
      ensures ok <==> forall p :: p in metadatas ==> putOk(p)
      ensures done <= metadatas.Keys && (ok ==> done == metadatas.Keys)
      ensures State() == FlushedOnly(old(State()), {}, done)
    {
      done := {};
      ghost var b := State();
      OnlyNone(b);
      var ids := metadatas.Keys;
      while ids != {}
        invariant Valid() && ids <= metadatas.Keys && done == metadatas.Keys - ids
        invariant forall p :: p in done ==> putOk(p)
        invariant State() == FlushedOnly(b, {}, done)
        decreases |ids|
      {
        var id :| id in ids;
        if !putOk(id) {
          return done, false;
        }
        OnlyOneMore(b.storedMetas, metadatas, done, id);
        StoreMetadata(id, metadatas[id], true);
        ids, done := ids - {id}, done + {id};
      }
      ok := true;
    }

    /** flush: claims first, then metadata; on a failing put, what was written so far stays written. */
    method Flush(claimPutOk: PeerID -> bool, metaPutOk: PeerID -> bool) returns (ok: bool)
      requires Valid()
      modifies ds
      ensures Valid()
      ensures ok <==> (forall p :: p in claims ==> claimPutOk(p)) && forall p :: p in metadatas ==> metaPutOk(p)
      ensures ok ==> State() == FlushedOnly(old(State()), claims.Keys, metadatas.Keys)
      ensures exists c, m :: c <= claims.Keys && m <= metadatas.Keys && State() == FlushedOnly(old(State()), c, m)
      ensures (exists p :: p in claims && !claimPutOk(p)) ==> ds.metas == old(ds.metas)
      ensures (forall p :: p in claims ==> claimPutOk(p)) ==>
                exists m :: m <= metadatas.Keys && State() == FlushedOnly(old(State()), claims.Keys, m)
    {
      ghost var b := State();
      ghost var c, m;
      c, ok := FlushClaims(claimPutOk);
      OnlyNone(b);
      if !ok {
        return;
      }
      m, ok := FlushMetadatas(metaPutOk);
      assert State() == FlushedOnly(b, c, m) by {
        OnlyNone(FlushedOnly(b, c, {}));
      }
    }
  }

  lemma OnlyNone(b: Book)
    ensures FlushedOnly(b, {}, {}) == b
    ensures forall c, m :: FlushedOnly(FlushedOnly(b, c, {}), {}, m) == FlushedOnly(b, c, m)
  {
    assert b.storedMetas + Only(b.metadatas, {}) == b.storedMetas;
    assert b.storedClaims + Only(b.claims, {}) == b.storedClaims;
    forall c: set<PeerID>
      ensures (b.storedClaims + Only(b.claims, c)) + Only(b.claims, {}) == b.storedClaims + Only(b.claims, c)
    {
    }
  }

  lemma OnlyOneMore<T>(stored: map<PeerID, T>, m: map<PeerID, T>, done: set<PeerID>, id: PeerID)
    requires id in m
    ensures (stored + Only(m, done))[id := m[id]] == stored + Only(m, done + {id})
  {
  }

  function Only<T>(m: map<PeerID, T>, ids: set<PeerID>): map<PeerID, T> {
    map p | p in m && p in ids :: m[p]
  }

  /** The datastore after the cached claims of c and the cached metadata of m were written. */
  function FlushedOnly(b: Book, c: set<PeerID>, m: set<PeerID>): Book {
    b.(storedMetas := b.storedMetas + Only(b.metadatas, m), storedClaims := b.storedClaims + Only(b.claims, c))
  }

  /** A new book on the same datastore. */
  function Reopened(b: Book): Book {
    b.(metadatas := map[], claims := map[], fetches := map[])
  }
}
