/** Where each field stands in an encoded record and image
    (core/qihse_principal_record.c, core/qihse_auth_archive.c). */
module Layout {
  import opened Prelude
  import opened ByteCodec
  import opened Principal
  import opened AuthImage
  import PrincipalRecord
  import RecordBlocks
  import ImageBlocks
  import ImageCodec
  import ImageRows
  import ImageFile

  /** `p` stands in `s` from position `i` on. */
  predicate At(s: Bytes, i: nat, p: Bytes) { i + |p| <= |s| && s[i..i + |p|] == p }

  lemma AtFirst(a: Bytes, b: Bytes)
    ensures At(a + b, 0, a)
  {}

  lemma AtLater(a: Bytes, b: Bytes, i: nat, p: Bytes)
    requires At(b, i, p)
    ensures At(a + b, |a| + i, p)
  {
    assert (a + b)[|a| + i..|a| + i + |p|] == b[i..i + |p|];
  }

  lemma AtWithin(s: Bytes, i: nat, q: Bytes, j: nat, p: Bytes)
    requires At(s, i, q) && At(q, j, p)
    ensures At(s, i + j, p)
  {
    forall k | 0 <= k < |p| ensures s[i + j + k] == p[k] {
      assert s[i..i + |q|][j + k] == q[j + k];
      assert q[j..j + |p|][k] == p[k];
    }
    assert s[i + j..i + j + |p|] == p;
  }

  lemma AtWhole(p: Bytes)
    ensures At(p, 0, p)
  {}

  lemma Two(a: Bytes, b: Bytes)
    ensures At(a + b, 0, a) && At(a + b, |a|, b)
  {
    AtFirst(a, b);
    AtWhole(b);
    AtLater(a, b, 0, b);
  }

  lemma Three(a: Bytes, b: Bytes, c: Bytes)
    ensures var s := a + (b + c); At(s, 0, a) && At(s, |a|, b) && At(s, |a| + |b|, c)
  {
    Two(b, c);
    AtFirst(a, b + c);
    AtLater(a, b + c, 0, b);
    AtLater(a, b + c, |b|, c);
  }

  lemma Four(a: Bytes, b: Bytes, c: Bytes, d: Bytes)
    ensures var s := a + (b + (c + d));
            At(s, 0, a) && At(s, |a|, b) && At(s, |a| + |b|, c) && At(s, |a| + |b| + |c|, d)
  {
    Three(b, c, d);
    AtFirst(a, b + (c + d));
    AtLater(a, b + (c + d), 0, b);
    AtLater(a, b + (c + d), |b|, c);
    AtLater(a, b + (c + d), |b| + |c|, d);
  }

  lemma Five(a: Bytes, b: Bytes, c: Bytes, d: Bytes, e: Bytes)
    ensures var s := a + (b + (c + (d + e)));
            && At(s, 0, a) && At(s, |a|, b) && At(s, |a| + |b|, c) && At(s, |a| + |b| + |c|, d)
            && At(s, |a| + |b| + |c| + |d|, e)
  {
    var rest := b + (c + (d + e));
    Four(b, c, d, e);
    AtFirst(a, rest);
    AtLater(a, rest, 0, b);
    AtLater(a, rest, |b|, c);
    AtLater(a, rest, |b| + |c|, d);
    AtLater(a, rest, |b| + |c| + |d|, e);
  }

  /** Three parts of a part. */
  lemma Lift3(s: Bytes, i: nat, q: Bytes, a: Bytes, j: nat, b: Bytes, k: nat, c: Bytes)
    requires At(s, i, q) && At(q, 0, a) && At(q, j, b) && At(q, k, c)
    ensures At(s, i, a) && At(s, i + j, b) && At(s, i + k, c)
  {
    AtWithin(s, i, q, 0, a);
    AtWithin(s, i, q, j, b);
    AtWithin(s, i, q, k, c);
  }

  // ---------------------------------------------------------------- numbers

  /** What is left of a number after dropping its `k` lowest bytes. */
  function Shifted(v: nat, k: nat): nat { if k == 0 then v else Shifted(v / 256, k - 1) }

  /** Byte `k` of a little-endian number is its digit number `k`, the lowest first. */
  lemma {:induction false} LittleDigits(n: nat, v: nat, k: nat)
    requires k < n
    ensures Little(n, v)[k] == Shifted(v, k) % 256
  {
    if k > 0 { LittleDigits(n - 1, v / 256, k - 1); }
  }

  /** In a big-endian number the lowest digit comes last. */
  lemma {:induction false} BigDigits(n: nat, v: nat, k: nat)
    requires k < n
    ensures Big(n, v)[n - 1 - k] == Shifted(v, k) % 256
  {
    if k > 0 { BigDigits(n - 1, v / 256, k - 1); }
  }

  // ---------------------------------------------------------------- a record of the log

  lemma TagLayout(t: RecordBlocks.Tag)
    ensures var s := RecordBlocks.EncTag(t);
            At(s, 0, t.magic) && At(s, 4, Little(2, t.version)) && At(s, 6, Little(1, t.kind))
            && At(s, 7, Little(1, t.reserved)) && At(s, 8, t.request)
  {
    Five(t.magic, Little(2, t.version), Little(1, t.kind), Little(1, t.reserved), t.request);
  }

  lemma StampLayout(t: RecordBlocks.Stamp)
    ensures var s := RecordBlocks.EncStamp(t);
            At(s, 0, Little(8, t.expected)) && At(s, 8, Little(4, t.actor)) && At(s, 12, Little(8, t.actorGen))
            && At(s, 20, Little(8, t.principalGen)) && At(s, 28, Little(4, t.target))
  {
    Five(Little(8, t.expected), Little(4, t.actor), Little(8, t.actorGen), Little(8, t.principalGen),
         Little(4, t.target));
  }

  /** The head of every record: magic, version 1, kind, request, generations, actor and target. */
  lemma RecordHeadLayout(r: PrincipalRecord.Record)
    requires r.body.Put? ==> |r.body.principal.acls| <= ACL_MAX
    ensures var s := PrincipalRecord.Encode(r);
            && At(s, 0, [0x51, 0x50, 0x52, 0x31]) && At(s, 4, Little(2, 1)) && At(s, 6, [if r.body.Put? then 1 else 2])
            && At(s, 7, [0]) && At(s, 8, r.request) && At(s, 24, Little(8, r.expected)) && At(s, 32, Little(4, r.actor))
            && At(s, 36, Little(8, r.actorGen)) && At(s, 44, Little(8, r.principalGen))
            && At(s, 52, Little(4, r.target))
            && (r.body.Delete? ==> |s| == 56)
            && (r.body.Put? ==> At(s, 56, PrincipalRecord.EncRaw(PrincipalRecord.RawOf(r.body.principal))))
  {
    var s, t, p, b := PrincipalRecord.Encode(r), PrincipalRecord.TagOf(r), PrincipalRecord.StampOf(r),
    PrincipalRecord.EncBody(r.body);
    Three(RecordBlocks.EncTag(t), RecordBlocks.EncStamp(p), b);
    TagLayout(t);
    StampLayout(p);
    OneByte(t.kind);
    OneByte(t.reserved);
    var x, y := RecordBlocks.EncTag(t), RecordBlocks.EncStamp(p);
    AtWithin(s, 0, x, 0, t.magic);
    AtWithin(s, 0, x, 4, Little(2, t.version));
    AtWithin(s, 0, x, 6, Little(1, t.kind));
    AtWithin(s, 0, x, 7, Little(1, t.reserved));
    AtWithin(s, 0, x, 8, t.request);
    AtWithin(s, 24, y, 0, Little(8, p.expected));
    AtWithin(s, 24, y, 8, Little(4, p.actor));
    AtWithin(s, 24, y, 12, Little(8, p.actorGen));
    AtWithin(s, 24, y, 20, Little(8, p.principalGen));
    AtWithin(s, 24, y, 28, Little(4, p.target));
  }

  lemma OneByte(v: u8)
    ensures Little(1, v) == [v] && Big(1, v) == [v]
  {
    assert v % 256 == v;
    assert Little(0, v / 256) == [] && Big(0, v / 256) == [];
  }

  function Bit(b: bool): u8 { if b then 1 else 0 }

  lemma GrantLayout(g: RecordBlocks.Grant)
    ensures var s := RecordBlocks.EncGrant(g);
            At(s, 0, Little(4, g.tenant)) && At(s, 4, Little(2, g.role)) && At(s, 6, Little(2, g.classification))
            && At(s, 8, Little(2, g.sci)) && At(s, 10, [g.create, g.required, g.present])
  {
    Five(Little(4, g.tenant), Little(2, g.role), Little(2, g.classification), Little(2, g.sci),
         [g.create, g.required, g.present]);
  }

  lemma LogVerifierLayout(v: Verifier)
    ensures var s := RecordBlocks.EncVerifier(v);
            At(s, 0, Little(2, v.version)) && At(s, 2, Little(2, v.algorithm)) && At(s, 4, Little(4, v.iterations))
            && At(s, 8, v.salt) && At(s, 24, v.hash)
  {
    Five(Little(2, v.version), Little(2, v.algorithm), Little(4, v.iterations), v.salt, v.hash);
  }

  lemma {:induction false} LogAclPlace(acls: seq<Acl>, k: nat)
    requires k < |acls|
    ensures At(RecordBlocks.EncAcls(acls), 13 * k, RecordBlocks.EncAcl(acls[k]))
    decreases |acls|
  {
    var n := |acls| - 1;
    var front, last := RecordBlocks.EncAcls(acls[..n]), RecordBlocks.EncAcl(acls[n]);
    Two(front, last);
    if k < n {
      LogAclPlace(acls[..n], k);
      AtWithin(front + last, 0, front, 13 * k, RecordBlocks.EncAcl(acls[k]));
    }
  }

  lemma LogAclFields(a: Acl)
    ensures var s := RecordBlocks.EncAcl(a);
            At(s, 0, Little(4, a.ns)) && At(s, 4, Little(8, a.resource)) && At(s, 12, [a.flags])
  {
    Three(Little(4, a.ns), Little(8, a.resource), [a.flags]);
  }

  /** Entry `k` of an access list: namespace, object and flags. */
  lemma LogAclLayout(acls: seq<Acl>, k: nat)
    requires k < |acls|
    ensures var s, a := RecordBlocks.EncAcls(acls), acls[k];
            At(s, 13 * k, Little(4, a.ns)) && At(s, 13 * k + 4, Little(8, a.resource)) && At(s, 13 * k + 12, [a.flags])
  {
    var a := acls[k];
    LogAclPlace(acls, k);
    LogAclFields(a);
    Lift3(RecordBlocks.EncAcls(acls), 13 * k, RecordBlocks.EncAcl(a), Little(4, a.ns), 4, Little(8, a.resource), 12,
          [a.flags]);
  }

  lemma LogPrincipalParts(u: User)
    requires |u.acls| <= ACL_MAX
    ensures var s, w := PrincipalRecord.EncRaw(PrincipalRecord.RawOf(u)), PrincipalRecord.RawOf(u);
            && At(s, 0, RecordBlocks.EncGrant(w.grant)) && At(s, 13, w.username) && At(s, 77, w.credential)
            && At(s, 141, RecordBlocks.EncVerifier(w.verifier))
            && At(s, 213, [|u.acls|]) && At(s, 214, RecordBlocks.EncAcls(u.acls))
  {
    var w := PrincipalRecord.RawOf(u);
    var s, f, l := PrincipalRecord.EncRaw(w), PrincipalRecord.EncFixed(w), PrincipalRecord.EncList(w.acls);
    var g, v := RecordBlocks.EncGrant(w.grant), RecordBlocks.EncVerifier(w.verifier);
    Two(f, l);
    Two([|w.acls|], RecordBlocks.EncAcls(w.acls));
    Four(g, w.username, w.credential, v);
    AtWithin(s, 213, l, 0, [|w.acls|]);
    AtWithin(s, 213, l, 1, RecordBlocks.EncAcls(w.acls));
    AtWithin(s, 0, f, 0, g);
    AtWithin(s, 0, f, 13, w.username);
    AtWithin(s, 0, f, 77, w.credential);
    AtWithin(s, 0, f, 141, v);
  }

  /** The principal of a put: identity fields and flags, the two padded strings, the number of
      access-list entries and the entries, 13 bytes each. */
  lemma PrincipalLayout(u: User)
    requires |u.acls| <= ACL_MAX
    ensures var s := PrincipalRecord.EncRaw(PrincipalRecord.RawOf(u));
            && At(s, 0, Little(4, u.tenant)) && At(s, 4, Little(2, u.role)) && At(s, 6, Little(2, u.classification))
            && At(s, 8, Little(2, u.sci)) && At(s, 10, [Bit(u.canCreate), Bit(u.tokenRequired), Bit(u.tokenPresent)])
            && At(s, 13, Padded(u.username)) && At(s, 77, Padded(u.credential))
            && At(s, 213, [|u.acls|]) && At(s, 214, RecordBlocks.EncAcls(u.acls))
  {
    var w := PrincipalRecord.RawOf(u);
    var s, g := PrincipalRecord.EncRaw(w), RecordBlocks.EncGrant(w.grant);
    LogPrincipalParts(u);
    GrantLayout(w.grant);
    AtWithin(s, 0, g, 0, Little(4, u.tenant));
    AtWithin(s, 0, g, 4, Little(2, u.role));
    AtWithin(s, 0, g, 6, Little(2, u.classification));
    AtWithin(s, 0, g, 8, Little(2, u.sci));
    AtWithin(s, 0, g, 10, [w.grant.create, w.grant.required, w.grant.present]);
  }

  /** And its verifier. */
  lemma PrincipalVerifierLayout(u: User)
    requires |u.acls| <= ACL_MAX
    ensures var s, v := PrincipalRecord.EncRaw(PrincipalRecord.RawOf(u)), u.verifier;
            && At(s, 141, Little(2, v.version)) && At(s, 143, Little(2, v.algorithm))
            && At(s, 145, Little(4, v.iterations))
            && At(s, 149, v.salt) && At(s, 165, v.hash)
  {
    var s, v := PrincipalRecord.EncRaw(PrincipalRecord.RawOf(u)), RecordBlocks.EncVerifier(u.verifier);
    LogPrincipalParts(u);
    LogVerifierLayout(u.verifier);
    AtWithin(s, 141, v, 0, Little(2, u.verifier.version));
    AtWithin(s, 141, v, 2, Little(2, u.verifier.algorithm));
    AtWithin(s, 141, v, 4, Little(4, u.verifier.iterations));
    AtWithin(s, 141, v, 8, u.verifier.salt);
    AtWithin(s, 141, v, 24, u.verifier.hash);
  }

  // ---------------------------------------------------------------- an image

  lemma PositionLayout(p: Position)
    ensures var s := ImageBlocks.EncPosition(p);
            At(s, 0, p.history) && At(s, 16, p.node) && At(s, 32, Big(8, p.epoch)) && At(s, 40, Big(8, p.generation))
  {
    Four(p.history, p.node, Big(8, p.epoch), Big(8, p.generation));
  }

  lemma HeaderParts(h: ImageFile.Header)
    ensures var s := ImageFile.EncHeader(h);
            At(s, 0, ImageBlocks.EncMagic(h.magic)) && At(s, 16, ImageBlocks.EncPosition(h.position))
            && At(s, 64, ImageBlocks.EncRootPart(h.root)) && At(s, 132, ImageBlocks.EncCounts(h.counts))
  {
    Four(ImageBlocks.EncMagic(h.magic), ImageBlocks.EncPosition(h.position), ImageBlocks.EncRootPart(h.root),
         ImageBlocks.EncCounts(h.counts));
  }

  /** The header: magic, version 1, purpose, position, binding, the root's counters, the two counts
      and whether a root follows. */
  lemma HeaderLayout(m: Image, local: bool)
    requires |m.rows| <= MAX_PRINCIPALS && |m.retries| <= RETRY_MAX
    ensures var s := ImageFile.EncHeader(ImageFile.HeaderOf(m, local));
            && At(s, 0, [0x51, 0x41, 0x49, 0x4D, 0x41, 0x47, 0x45, 0x31]) && At(s, 8, Big(4, 1))
            && At(s, 12, Big(4, if local then 1 else 2)) && At(s, 16, m.position.history) && At(s, 32, m.position.node)
            && At(s, 48, Big(8, m.position.epoch)) && At(s, 56, Big(8, m.position.generation))
            && (local ==> At(s, 64, m.binding)) && At(s, 112, Big(8, m.rootGeneration))
            && At(s, 120, Big(4, m.rootFailed))
            && At(s, 124, Big(8, m.rootLockout)) && At(s, 132, Big(4, |m.rows|)) && At(s, 136, Big(4, |m.retries|))
            && At(s, 140, [if local then 1 else 0])
  {
    var h := ImageFile.HeaderOf(m, local);
    var s := ImageFile.EncHeader(h);
    HeaderParts(h);
    Three(h.magic.magic, Big(4, h.magic.version), Big(4, h.magic.purpose));
    PositionLayout(h.position);
    Four(h.root.binding, Big(8, h.root.generation), Big(4, h.root.failed), Big(8, h.root.lockout));
    Three(Big(4, h.counts.rows), Big(4, h.counts.retries), Big(1, h.counts.hasRoot));
    OneByte(h.counts.hasRoot);
    AtWithin(s, 0, ImageBlocks.EncMagic(h.magic), 0, h.magic.magic);
    AtWithin(s, 0, ImageBlocks.EncMagic(h.magic), 8, Big(4, h.magic.version));
    AtWithin(s, 0, ImageBlocks.EncMagic(h.magic), 12, Big(4, h.magic.purpose));
    AtWithin(s, 16, ImageBlocks.EncPosition(h.position), 0, h.position.history);
    AtWithin(s, 16, ImageBlocks.EncPosition(h.position), 16, h.position.node);
    AtWithin(s, 16, ImageBlocks.EncPosition(h.position), 32, Big(8, h.position.epoch));
    AtWithin(s, 16, ImageBlocks.EncPosition(h.position), 40, Big(8, h.position.generation));
    AtWithin(s, 64, ImageBlocks.EncRootPart(h.root), 0, h.root.binding);
    AtWithin(s, 64, ImageBlocks.EncRootPart(h.root), 48, Big(8, h.root.generation));
    AtWithin(s, 64, ImageBlocks.EncRootPart(h.root), 56, Big(4, h.root.failed));
    AtWithin(s, 64, ImageBlocks.EncRootPart(h.root), 60, Big(8, h.root.lockout));
    AtWithin(s, 132, ImageBlocks.EncCounts(h.counts), 0, Big(4, h.counts.rows));
    AtWithin(s, 132, ImageBlocks.EncCounts(h.counts), 4, Big(4, h.counts.retries));
    AtWithin(s, 132, ImageBlocks.EncCounts(h.counts), 8, Big(1, h.counts.hasRoot));
  }

  /** A row: id, whether it is active, generation, failures, lockout, and the principal if active. */
  lemma RowLayout(x: Row)
    requires ImageRows.RowFits(x)
    ensures var s := ImageRows.EncRow(x);
            && At(s, 0, Big(4, x.id)) && At(s, 4, [if x.principal.Some? then 1 else 0])
            && At(s, 5, Big(8, x.generation))
            && At(s, 13, Big(4, x.failed)) && At(s, 17, Big(8, x.lockout))
            && (if x.principal.Some? then At(s, 25, ImageCodec.EncPrincipal(x.principal.value)) else |s| == 25)
  {
    var h := ImageRows.HeadOf(x);
    var s, b := ImageRows.EncRow(x), ImageBlocks.EncRowHead(h);
    Two(b, ImageRows.EncTail(x.principal));
    Five(Big(4, h.id), Big(1, h.active), Big(8, h.generation), Big(4, h.failed), Big(8, h.lockout));
    OneByte(h.active);
    AtWithin(s, 0, b, 0, Big(4, h.id));
    AtWithin(s, 0, b, 4, Big(1, h.active));
    AtWithin(s, 0, b, 5, Big(8, h.generation));
    AtWithin(s, 0, b, 13, Big(4, h.failed));
    AtWithin(s, 0, b, 17, Big(8, h.lockout));
  }

  /** A retry record: request, digest, actor, its generation, and the position answered. */
  lemma RetryLayout(t: Retry)
    ensures var s := ImageBlocks.EncRetry(t);
            At(s, 0, t.request) && At(s, 16, t.digest) && At(s, 64, Big(4, t.actor)) && At(s, 68, Big(8, t.actorGen))
            && At(s, 76, t.result.history) && At(s, 92, t.result.node) && At(s, 108, Big(8, t.result.epoch))
            && At(s, 116, Big(8, t.result.generation))
  {
    var s, p := ImageBlocks.EncRetry(t), ImageBlocks.EncPosition(t.result);
    Five(t.request, t.digest, Big(4, t.actor), Big(8, t.actorGen), p);
    PositionLayout(t.result);
    AtWithin(s, 76, p, 0, t.result.history);
    AtWithin(s, 76, p, 16, t.result.node);
    AtWithin(s, 76, p, 32, Big(8, t.result.epoch));
    AtWithin(s, 76, p, 40, Big(8, t.result.generation));
  }

  lemma ImageVerifierLayout(v: Verifier)
    ensures var s := ImageBlocks.EncVerifier(v);
            At(s, 0, Big(2, v.version)) && At(s, 2, Big(2, v.algorithm)) && At(s, 4, Big(4, v.iterations))
            && At(s, 8, v.salt) && At(s, 24, v.hash)
  {
    Five(Big(2, v.version), Big(2, v.algorithm), Big(4, v.iterations), v.salt, v.hash);
  }

  lemma {:induction false} ImageAclPlace(acls: seq<Acl>, k: nat)
    requires k < |acls|
    ensures At(ImageCodec.EncAcls(acls), 13 * k, ImageBlocks.EncAcl(acls[k]))
    decreases |acls|
  {
    var n := |acls| - 1;
    var front, last := ImageCodec.EncAcls(acls[..n]), ImageBlocks.EncAcl(acls[n]);
    Two(front, last);
    if k < n {
      ImageAclPlace(acls[..n], k);
      AtWithin(front + last, 0, front, 13 * k, ImageBlocks.EncAcl(acls[k]));
    }
  }

  lemma ImageAclFields(a: Acl)
    ensures var s := ImageBlocks.EncAcl(a);
            At(s, 0, Big(4, a.ns)) && At(s, 4, Big(8, a.resource)) && At(s, 12, Big(1, a.flags))
  {
    Three(Big(4, a.ns), Big(8, a.resource), Big(1, a.flags));
  }

  /** Entry `k` of an access list: namespace, object and flags. */
  lemma ImageAclLayout(acls: seq<Acl>, k: nat)
    requires k < |acls|
    ensures var s, a := ImageCodec.EncAcls(acls), acls[k];
            At(s, 13 * k, Big(4, a.ns)) && At(s, 13 * k + 4, Big(8, a.resource)) && At(s, 13 * k + 12, Big(1, a.flags))
  {
    var a := acls[k];
    ImageAclPlace(acls, k);
    ImageAclFields(a);
    Lift3(ImageCodec.EncAcls(acls), 13 * k, ImageBlocks.EncAcl(a), Big(4, a.ns), 4, Big(8, a.resource), 12,
          Big(1, a.flags));
  }

  lemma FixedParts(w: ImageCodec.Raw)
    ensures var s := ImageCodec.EncFixed(w);
            At(s, 0, ImageBlocks.EncIdentity(w.identity)) && At(s, 10, ImageBlocks.EncClearance(w.clearance))
            && At(s, 15, w.username) && At(s, 79, w.credential) && At(s, 143, ImageBlocks.EncVerifier(w.verifier))
  {
    Five(ImageBlocks.EncIdentity(w.identity), ImageBlocks.EncClearance(w.clearance), w.username, w.credential,
         ImageBlocks.EncVerifier(w.verifier));
  }

  lemma ImagePrincipalParts(u: User)
    requires |u.acls| <= ACL_MAX
    ensures var s, w := ImageCodec.EncPrincipal(u), ImageCodec.RawOf(u);
            && At(s, 0, ImageBlocks.EncIdentity(w.identity)) && At(s, 10, ImageBlocks.EncClearance(w.clearance))
            && At(s, 15, w.username) && At(s, 79, w.credential) && At(s, 143, ImageBlocks.EncVerifier(w.verifier))
            && At(s, 215, [|u.acls|]) && At(s, 216, ImageCodec.EncAcls(u.acls))
  {
    var w := ImageCodec.RawOf(u);
    var s, f, l := ImageCodec.EncRaw(w), ImageCodec.EncFixed(w), ImageCodec.EncList(w.acls);
    Two(f, l);
    Two([|w.acls|], ImageCodec.EncAcls(w.acls));
    FixedParts(w);
    AtWithin(s, 215, l, 0, [|w.acls|]);
    AtWithin(s, 215, l, 1, ImageCodec.EncAcls(w.acls));
    AtWithin(s, 0, f, 0, ImageBlocks.EncIdentity(w.identity));
    AtWithin(s, 0, f, 10, ImageBlocks.EncClearance(w.clearance));
    AtWithin(s, 0, f, 15, w.username);
    AtWithin(s, 0, f, 79, w.credential);
    AtWithin(s, 0, f, 143, ImageBlocks.EncVerifier(w.verifier));
  }

  /** A principal of an image; the two flags share a byte. */
  lemma ImagePrincipalLayout(u: User)
    requires |u.acls| <= ACL_MAX
    ensures var s := ImageCodec.EncPrincipal(u);
            && At(s, 0, Big(4, u.id)) && At(s, 4, Big(4, u.tenant)) && At(s, 8, Big(2, u.role))
            && At(s, 10, Big(2, u.classification)) && At(s, 12, Big(2, u.sci))
            && At(s, 14, [Bit(u.canCreate) + 2 * Bit(u.tokenRequired) as int])
            && At(s, 15, Padded(u.username)) && At(s, 79, Padded(u.credential))
            && At(s, 215, [|u.acls|]) && At(s, 216, ImageCodec.EncAcls(u.acls))
  {
    var s, w := ImageCodec.EncPrincipal(u), ImageCodec.RawOf(u);
    var i, c := ImageBlocks.EncIdentity(w.identity), ImageBlocks.EncClearance(w.clearance);
    ImagePrincipalParts(u);
    Three(Big(4, w.identity.id), Big(4, w.identity.tenant), Big(2, w.identity.role));
    Three(Big(2, w.clearance.classification), Big(2, w.clearance.sci), Big(1, w.clearance.flags));
    OneByte(w.clearance.flags);
    AtWithin(s, 0, i, 0, Big(4, u.id));
    AtWithin(s, 0, i, 4, Big(4, u.tenant));
    AtWithin(s, 0, i, 8, Big(2, u.role));
    AtWithin(s, 10, c, 0, Big(2, u.classification));
    AtWithin(s, 10, c, 2, Big(2, u.sci));
    AtWithin(s, 10, c, 4, Big(1, w.clearance.flags));
  }

  /** And its verifier. */
  lemma ImagePrincipalVerifierLayout(u: User)
    requires |u.acls| <= ACL_MAX
    ensures var s, v := ImageCodec.EncPrincipal(u), u.verifier;
            && At(s, 143, Big(2, v.version)) && At(s, 145, Big(2, v.algorithm)) && At(s, 147, Big(4, v.iterations))
            && At(s, 151, v.salt) && At(s, 167, v.hash)
  {
    var s, v := ImageCodec.EncPrincipal(u), ImageBlocks.EncVerifier(u.verifier);
    ImagePrincipalParts(u);
    ImageVerifierLayout(u.verifier);
    AtWithin(s, 143, v, 0, Big(2, u.verifier.version));
    AtWithin(s, 143, v, 2, Big(2, u.verifier.algorithm));
    AtWithin(s, 143, v, 4, Big(4, u.verifier.iterations));
    AtWithin(s, 143, v, 8, u.verifier.salt);
    AtWithin(s, 143, v, 24, u.verifier.hash);
  }

  lemma {:induction false} RetryPlace(ts: seq<Retry>, k: nat)
    requires k < |ts|
    ensures At(ImageRows.EncRetries(ts), 124 * k, ImageBlocks.EncRetry(ts[k]))
    decreases |ts|
  {
    var n := |ts| - 1;
    var front, last := ImageRows.EncRetries(ts[..n]), ImageBlocks.EncRetry(ts[n]);
    Two(front, last);
    if k < n {
      RetryPlace(ts[..n], k);
      AtWithin(front + last, 0, front, 124 * k, ImageBlocks.EncRetry(ts[k]));
    }
  }

  /** Row `k` stands behind the rows before it. */
  lemma {:induction false} RowPlace(xs: seq<Row>, k: nat)
    requires k < |xs| && ImageRows.RowsFit(xs)
    ensures ImageRows.RowsFit(xs[..k]) && ImageRows.RowFits(xs[k])
    ensures At(ImageRows.EncRows(xs), |ImageRows.EncRows(xs[..k])|, ImageRows.EncRow(xs[k]))
  {
    var first, rest := ImageRows.EncRow(xs[0]), ImageRows.EncRows(xs[1..]);
    if k == 0 {
      AtFirst(first, rest);
    } else {
      RowPlace(xs[1..], k - 1);
      assert xs[..k][0] == xs[0] && xs[..k][1..] == xs[1..][..k - 1];
      AtLater(first, rest, |ImageRows.EncRows(xs[1..][..k - 1])|, ImageRows.EncRow(xs[k]));
    }
  }

  /** The image: the 141 bytes of the header, the root if local, the rows, the retry records. */
  lemma ImageLayout(m: Image, local: bool)
    requires ImageFile.Encodable(m, local)
    ensures ImageFile.EncImage(m, local) ==
      ImageFile.EncHeader(ImageFile.HeaderOf(m, local))
      + (ImageRows.EncTail(m.root) + (ImageRows.EncRows(m.rows) + ImageRows.EncRetries(m.retries)))
    ensures m.root.Some? ==> ImageRows.EncTail(m.root) == ImageCodec.EncPrincipal(m.root.value)
    ensures m.root.None? ==> ImageRows.EncTail(m.root) == []
  {}
}
