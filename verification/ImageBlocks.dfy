/** The blocks of a binary authority image: how each is written, read back and split off the
    bytes that follow (core/qihse_auth_archive.c). */
module ImageBlocks {
  import opened Prelude
  import opened ByteCodec
  import opened Principal
  import opened AuthImage

  type Bytes8 = s: Bytes | |s| == 8 witness seq(8, _ => 0)

  datatype Identity = Identity(id: u32, tenant: u32, role: u16)
  datatype Clearance = Clearance(classification: u16, sci: u16, flags: u8)
  datatype RowHead = RowHead(id: u32, active: u8, generation: u64, failed: u32, lockout: u64)
  datatype Magic = Magic(magic: Bytes8, version: u32, purpose: u32)
  datatype RootPart = RootPart(binding: Bytes48, generation: u64, failed: u32, lockout: u64)
  datatype Counts = Counts(rows: u32, retries: u32, hasRoot: u8)

  /** Equal encodings that start with the same-width number agree on it and on what follows. */
  lemma BigEq(n: nat, a: nat, s: Bytes, b: nat, t: Bytes)
    requires a < Pow256(n) && b < Pow256(n) && Big(n, a) + s == Big(n, b) + t
    ensures a == b && s == t
  {
    SplitEq(Big(n, a), s, Big(n, b), t);
    FromOfBig(n, a);
    FromOfBig(n, b);
  }

  // ---------------------------------------------------------------- positions

  function EncPosition(x: Position): (s: Bytes)
    ensures |s| == 48
  {
    x.history + (x.node + (Big(8, x.epoch) + Big(8, x.generation)))
  }

  lemma PositionEq(a: Position, s: Bytes, b: Position, t: Bytes)
    requires EncPosition(a) + s == EncPosition(b) + t
    ensures a == b && s == t
  {
    Widths();
    SplitEq(EncPosition(a), s, EncPosition(b), t);
    SplitEq(a.history, a.node + (Big(8, a.epoch) + Big(8, a.generation)), b.history,
            b.node + (Big(8, b.epoch) + Big(8, b.generation)));
    SplitEq(a.node, Big(8, a.epoch) + Big(8, a.generation), b.node, Big(8, b.epoch) + Big(8, b.generation));
    BigEq(8, a.epoch, Big(8, a.generation), b.epoch, Big(8, b.generation));
    BigEq(8, a.generation, [], b.generation, []);
  }

  method ReadPosition(r: Reader) returns (x: Position)
    requires r.position <= |r.data|
    modifies r
    ensures r.position <= |r.data| && r.valid == (old(r.valid) && 48 <= |old(r.Rest())|)
    ensures r.valid ==> EncPosition(x) == old(r.Rest())[..48] && r.Rest() == old(r.Rest())[48..]
  {
    Widths();
    ghost var s := r.Rest();
    var history := r.GetBytes(16);
    var node := r.GetBytes(16);
    var epoch := r.GetBig(8);
    var generation := r.GetBig(8);
    x := Position(history, node, epoch, generation);
    if r.valid {
      Window(s, 0, 16);
      Window(s, 16, 16);
      Window(s, 32, 8);
      Window(s, 40, 8);
      PositionJoined(s, x);
    }
  }

  /** Fields read one after the other encode to what was read. */
  lemma PositionJoined(s: Bytes, x: Position)
    requires |s| >= 48 && x.history == s[0..16] && x.node == s[16..32]
    requires x.epoch == FromBig(s[32..40]) && x.generation == FromBig(s[40..48])
    ensures EncPosition(x) == s[..48]
  {
    Widths();
    BigOfFrom(s[32..40]);
    BigOfFrom(s[40..48]);
    Join(s, 32, 40, 48);
    Join(s, 16, 32, 48);
    Join(s, 0, 16, 48);
  }

  method WritePosition(w: ImageWriter, x: Position)
    requires w.Valid()
    modifies w`used, w`good, w`out, w.data
    ensures w.Valid() && w.good == (old(w.good) && |old(w.out)| + 48 <= w.capacity)
    ensures w.good ==> w.out == old(w.out) + EncPosition(x)
  {
    ghost var o := w.out;
    ghost var a, b, c, d := x.history, x.node, Big(8, x.epoch), Big(8, x.generation);
    w.Write(x.history);
    w.Write(x.node);
    w.WriteNumber(x.epoch, 8);
    w.WriteNumber(x.generation, 8);
    Regroup(o + a + b, c, d);
    Regroup(o + a, b, c + d);
    Regroup(o, a, b + (c + d));
  }

  // ---------------------------------------------------------------- the header

  function EncMagic(x: Magic): (s: Bytes)
    ensures |s| == 16
  {
    x.magic + (Big(4, x.version) + Big(4, x.purpose))
  }

  lemma MagicEq(a: Magic, s: Bytes, b: Magic, t: Bytes)
    requires EncMagic(a) + s == EncMagic(b) + t
    ensures a == b && s == t
  {
    Widths();
    SplitEq(EncMagic(a), s, EncMagic(b), t);
    SplitEq(a.magic, Big(4, a.version) + Big(4, a.purpose), b.magic, Big(4, b.version) + Big(4, b.purpose));
    BigEq(4, a.version, Big(4, a.purpose), b.version, Big(4, b.purpose));
    BigEq(4, a.purpose, [], b.purpose, []);
  }

  method ReadMagic(r: Reader) returns (x: Magic)
    requires r.position <= |r.data|
    modifies r
    ensures r.position <= |r.data| && r.valid == (old(r.valid) && 16 <= |old(r.Rest())|)
    ensures r.valid ==> EncMagic(x) == old(r.Rest())[..16] && r.Rest() == old(r.Rest())[16..]
  {
    Widths();
    ghost var s := r.Rest();
    var magic := r.GetBytes(8);
    var version := r.GetBig(4);
    var purpose := r.GetBig(4);
    x := Magic(magic, version, purpose);
    if r.valid {
      Window(s, 0, 8);
      Window(s, 8, 4);
      Window(s, 12, 4);
      MagicJoined(s, x);
    }
  }

  /** Fields read one after the other encode to what was read. */
  lemma MagicJoined(s: Bytes, x: Magic)
    requires |s| >= 16 && x.magic == s[0..8] && x.version == FromBig(s[8..12])
    requires x.purpose == FromBig(s[12..16])
    ensures EncMagic(x) == s[..16]
  {
    Widths();
    BigOfFrom(s[8..12]);
    BigOfFrom(s[12..16]);
    Join(s, 8, 12, 16);
    Join(s, 0, 8, 16);
  }

  method WriteMagic(w: ImageWriter, x: Magic)
    requires w.Valid()
    modifies w`used, w`good, w`out, w.data
    ensures w.Valid() && w.good == (old(w.good) && |old(w.out)| + 16 <= w.capacity)
    ensures w.good ==> w.out == old(w.out) + EncMagic(x)
  {
    ghost var o := w.out;
    ghost var a, b, c := x.magic, Big(4, x.version), Big(4, x.purpose);
    w.Write(x.magic);
    w.WriteNumber(x.version, 4);
    w.WriteNumber(x.purpose, 4);
    Regroup(o + a, b, c);
    Regroup(o, a, b + c);
  }

  // ---------------------------------------------------------------- root state

  function EncRootPart(x: RootPart): (s: Bytes)
    ensures |s| == 68
  {
    x.binding + (Big(8, x.generation) + (Big(4, x.failed) + Big(8, x.lockout)))
  }

  lemma RootPartEq(a: RootPart, s: Bytes, b: RootPart, t: Bytes)
    requires EncRootPart(a) + s == EncRootPart(b) + t
    ensures a == b && s == t
  {
    Widths();
    SplitEq(EncRootPart(a), s, EncRootPart(b), t);
    SplitEq(a.binding, Big(8, a.generation) + (Big(4, a.failed) + Big(8, a.lockout)), b.binding,
            Big(8, b.generation) + (Big(4, b.failed) + Big(8, b.lockout)));
    BigEq(8, a.generation, Big(4, a.failed) + Big(8, a.lockout), b.generation, Big(4, b.failed) + Big(8, b.lockout));
    BigEq(4, a.failed, Big(8, a.lockout), b.failed, Big(8, b.lockout));
    BigEq(8, a.lockout, [], b.lockout, []);
  }

  method ReadRootPart(r: Reader) returns (x: RootPart)
    requires r.position <= |r.data|
    modifies r
    ensures r.position <= |r.data| && r.valid == (old(r.valid) && 68 <= |old(r.Rest())|)
    ensures r.valid ==> EncRootPart(x) == old(r.Rest())[..68] && r.Rest() == old(r.Rest())[68..]
  {
    Widths();
    ghost var s := r.Rest();
    var binding := r.GetBytes(48);
    var generation := r.GetBig(8);
    var failed := r.GetBig(4);
    var lockout := r.GetBig(8);
    x := RootPart(binding, generation, failed, lockout);
    if r.valid {
      Window(s, 0, 48);
      Window(s, 48, 8);
      Window(s, 56, 4);
      Window(s, 60, 8);
      RootPartJoined(s, x);
    }
  }

  /** Fields read one after the other encode to what was read. */
  lemma RootPartJoined(s: Bytes, x: RootPart)
    requires |s| >= 68 && x.binding == s[0..48] && x.generation == FromBig(s[48..56])
    requires x.failed == FromBig(s[56..60]) && x.lockout == FromBig(s[60..68])
    ensures EncRootPart(x) == s[..68]
  {
    Widths();
    BigOfFrom(s[48..56]);
    BigOfFrom(s[56..60]);
    BigOfFrom(s[60..68]);
    Join(s, 56, 60, 68);
    Join(s, 48, 56, 68);
    Join(s, 0, 48, 68);
  }

  method WriteRootPart(w: ImageWriter, x: RootPart)
    requires w.Valid()
    modifies w`used, w`good, w`out, w.data
    ensures w.Valid() && w.good == (old(w.good) && |old(w.out)| + 68 <= w.capacity)
    ensures w.good ==> w.out == old(w.out) + EncRootPart(x)
  {
    ghost var o := w.out;
    ghost var a, b, c, d := x.binding, Big(8, x.generation), Big(4, x.failed), Big(8, x.lockout);
    w.Write(x.binding);
    w.WriteNumber(x.generation, 8);
    w.WriteNumber(x.failed, 4);
    w.WriteNumber(x.lockout, 8);
    Regroup(o + a + b, c, d);
    Regroup(o + a, b, c + d);
    Regroup(o, a, b + (c + d));
  }

  // ---------------------------------------------------------------- counts

  function EncCounts(x: Counts): (s: Bytes)
    ensures |s| == 9
  {
    Big(4, x.rows) + (Big(4, x.retries) + Big(1, x.hasRoot))
  }

  lemma CountsEq(a: Counts, s: Bytes, b: Counts, t: Bytes)
    requires EncCounts(a) + s == EncCounts(b) + t
    ensures a == b && s == t
  {
    Widths();
    SplitEq(EncCounts(a), s, EncCounts(b), t);
    BigEq(4, a.rows, Big(4, a.retries) + Big(1, a.hasRoot), b.rows, Big(4, b.retries) + Big(1, b.hasRoot));
    BigEq(4, a.retries, Big(1, a.hasRoot), b.retries, Big(1, b.hasRoot));
    BigEq(1, a.hasRoot, [], b.hasRoot, []);
  }

  method ReadCounts(r: Reader) returns (x: Counts)
    requires r.position <= |r.data|
    modifies r
    ensures r.position <= |r.data| && r.valid == (old(r.valid) && 9 <= |old(r.Rest())|)
    ensures r.valid ==> EncCounts(x) == old(r.Rest())[..9] && r.Rest() == old(r.Rest())[9..]
  {
    Widths();
    ghost var s := r.Rest();
    var rows := r.GetBig(4);
    var retries := r.GetBig(4);
    var hasRoot := r.GetBig(1);
    x := Counts(rows, retries, hasRoot);
    if r.valid {
      Window(s, 0, 4);
      Window(s, 4, 4);
      Window(s, 8, 1);
      CountsJoined(s, x);
    }
  }

  /** Fields read one after the other encode to what was read. */
  lemma CountsJoined(s: Bytes, x: Counts)
    requires |s| >= 9 && x.rows == FromBig(s[0..4]) && x.retries == FromBig(s[4..8])
    requires x.hasRoot == FromBig(s[8..9])
    ensures EncCounts(x) == s[..9]
  {
    Widths();
    BigOfFrom(s[0..4]);
    BigOfFrom(s[4..8]);
    BigOfFrom(s[8..9]);
    Join(s, 4, 8, 9);
    Join(s, 0, 4, 9);
  }

  method WriteCounts(w: ImageWriter, x: Counts)
    requires w.Valid()
    modifies w`used, w`good, w`out, w.data
    ensures w.Valid() && w.good == (old(w.good) && |old(w.out)| + 9 <= w.capacity)
    ensures w.good ==> w.out == old(w.out) + EncCounts(x)
  {
    ghost var o := w.out;
    ghost var a, b, c := Big(4, x.rows), Big(4, x.retries), Big(1, x.hasRoot);
    w.WriteNumber(x.rows, 4);
    w.WriteNumber(x.retries, 4);
    w.WriteNumber(x.hasRoot, 1);
    Regroup(o + a, b, c);
    Regroup(o, a, b + c);
  }

  // ---------------------------------------------------------------- identities

  function EncIdentity(x: Identity): (s: Bytes)
    ensures |s| == 10
  {
    Big(4, x.id) + (Big(4, x.tenant) + Big(2, x.role))
  }

  lemma IdentityEq(a: Identity, s: Bytes, b: Identity, t: Bytes)
    requires EncIdentity(a) + s == EncIdentity(b) + t
    ensures a == b && s == t
  {
    Widths();
    SplitEq(EncIdentity(a), s, EncIdentity(b), t);
    BigEq(4, a.id, Big(4, a.tenant) + Big(2, a.role), b.id, Big(4, b.tenant) + Big(2, b.role));
    BigEq(4, a.tenant, Big(2, a.role), b.tenant, Big(2, b.role));
    BigEq(2, a.role, [], b.role, []);
  }

  method ReadIdentity(r: Reader) returns (x: Identity)
    requires r.position <= |r.data|
    modifies r
    ensures r.position <= |r.data| && r.valid == (old(r.valid) && 10 <= |old(r.Rest())|)
    ensures r.valid ==> EncIdentity(x) == old(r.Rest())[..10] && r.Rest() == old(r.Rest())[10..]
  {
    Widths();
    ghost var s := r.Rest();
    var id := r.GetBig(4);
    var tenant := r.GetBig(4);
    var role := r.GetBig(2);
    x := Identity(id, tenant, role);
    if r.valid {
      Window(s, 0, 4);
      Window(s, 4, 4);
      Window(s, 8, 2);
      IdentityJoined(s, x);
    }
  }

  /** Fields read one after the other encode to what was read. */
  lemma IdentityJoined(s: Bytes, x: Identity)
    requires |s| >= 10 && x.id == FromBig(s[0..4]) && x.tenant == FromBig(s[4..8])
    requires x.role == FromBig(s[8..10])
    ensures EncIdentity(x) == s[..10]
  {
    Widths();
    BigOfFrom(s[0..4]);
    BigOfFrom(s[4..8]);
    BigOfFrom(s[8..10]);
    Join(s, 4, 8, 10);
    Join(s, 0, 4, 10);
  }

  method WriteIdentity(w: ImageWriter, x: Identity)
    requires w.Valid()
    modifies w`used, w`good, w`out, w.data
    ensures w.Valid() && w.good == (old(w.good) && |old(w.out)| + 10 <= w.capacity)
    ensures w.good ==> w.out == old(w.out) + EncIdentity(x)
  {
    ghost var o := w.out;
    ghost var a, b, c := Big(4, x.id), Big(4, x.tenant), Big(2, x.role);
    w.WriteNumber(x.id, 4);
    w.WriteNumber(x.tenant, 4);
    w.WriteNumber(x.role, 2);
    Regroup(o + a, b, c);
    Regroup(o, a, b + c);
  }

  // ---------------------------------------------------------------- clearances

  function EncClearance(x: Clearance): (s: Bytes)
    ensures |s| == 5
  {
    Big(2, x.classification) + (Big(2, x.sci) + Big(1, x.flags))
  }

  lemma ClearanceEq(a: Clearance, s: Bytes, b: Clearance, t: Bytes)
    requires EncClearance(a) + s == EncClearance(b) + t
    ensures a == b && s == t
  {
    Widths();
    SplitEq(EncClearance(a), s, EncClearance(b), t);
    BigEq(2, a.classification, Big(2, a.sci) + Big(1, a.flags), b.classification, Big(2, b.sci) + Big(1, b.flags));
    BigEq(2, a.sci, Big(1, a.flags), b.sci, Big(1, b.flags));
    BigEq(1, a.flags, [], b.flags, []);
  }

  method ReadClearance(r: Reader) returns (x: Clearance)
    requires r.position <= |r.data|
    modifies r
    ensures r.position <= |r.data| && r.valid == (old(r.valid) && 5 <= |old(r.Rest())|)
    ensures r.valid ==> EncClearance(x) == old(r.Rest())[..5] && r.Rest() == old(r.Rest())[5..]
  {
    Widths();
    ghost var s := r.Rest();
    var classification := r.GetBig(2);
    var sci := r.GetBig(2);
    var flags := r.GetBig(1);
    x := Clearance(classification, sci, flags);
    if r.valid {
      Window(s, 0, 2);
      Window(s, 2, 2);
      Window(s, 4, 1);
      ClearanceJoined(s, x);
    }
  }

  /** Fields read one after the other encode to what was read. */
  lemma ClearanceJoined(s: Bytes, x: Clearance)
    requires |s| >= 5 && x.classification == FromBig(s[0..2]) && x.sci == FromBig(s[2..4])
    requires x.flags == FromBig(s[4..5])
    ensures EncClearance(x) == s[..5]
  {
    Widths();
    BigOfFrom(s[0..2]);
    BigOfFrom(s[2..4]);
    BigOfFrom(s[4..5]);
    Join(s, 2, 4, 5);
    Join(s, 0, 2, 5);
  }

  method WriteClearance(w: ImageWriter, x: Clearance)
    requires w.Valid()
    modifies w`used, w`good, w`out, w.data
    ensures w.Valid() && w.good == (old(w.good) && |old(w.out)| + 5 <= w.capacity)
    ensures w.good ==> w.out == old(w.out) + EncClearance(x)
  {
    ghost var o := w.out;
    ghost var a, b, c := Big(2, x.classification), Big(2, x.sci), Big(1, x.flags);
    w.WriteNumber(x.classification, 2);
    w.WriteNumber(x.sci, 2);
    w.WriteNumber(x.flags, 1);
    Regroup(o + a, b, c);
    Regroup(o, a, b + c);
  }

  // ---------------------------------------------------------------- verifiers

  function EncVerifier(x: Verifier): (s: Bytes)
    ensures |s| == 72
  {
    Big(2, x.version) + (Big(2, x.algorithm) + (Big(4, x.iterations) + (x.salt + x.hash)))
  }

  lemma VerifierEq(a: Verifier, s: Bytes, b: Verifier, t: Bytes)
    requires EncVerifier(a) + s == EncVerifier(b) + t
    ensures a == b && s == t
  {
    Widths();
    SplitEq(EncVerifier(a), s, EncVerifier(b), t);
    BigEq(2, a.version, Big(2, a.algorithm) + (Big(4, a.iterations) + (a.salt + a.hash)), b.version,
          Big(2, b.algorithm) + (Big(4, b.iterations) + (b.salt + b.hash)));
    BigEq(2, a.algorithm, Big(4, a.iterations) + (a.salt + a.hash), b.algorithm,
          Big(4, b.iterations) + (b.salt + b.hash));
    BigEq(4, a.iterations, a.salt + a.hash, b.iterations, b.salt + b.hash);
    SplitEq(a.salt, a.hash, b.salt, b.hash);
  }

  method ReadVerifier(r: Reader) returns (x: Verifier)
    requires r.position <= |r.data|
    modifies r
    ensures r.position <= |r.data| && r.valid == (old(r.valid) && 72 <= |old(r.Rest())|)
    ensures r.valid ==> EncVerifier(x) == old(r.Rest())[..72] && r.Rest() == old(r.Rest())[72..]
  {
    Widths();
    ghost var s := r.Rest();
    var version := r.GetBig(2);
    var algorithm := r.GetBig(2);
    var iterations := r.GetBig(4);
    var salt := r.GetBytes(16);
    var hash := r.GetBytes(48);
    x := Verifier(version, algorithm, iterations, salt, hash);
    if r.valid {
      Window(s, 0, 2);
      Window(s, 2, 2);
      Window(s, 4, 4);
      Window(s, 8, 16);
      Window(s, 24, 48);
      VerifierJoined(s, x);
    }
  }

  /** Fields read one after the other encode to what was read. */
  lemma VerifierJoined(s: Bytes, x: Verifier)
    requires |s| >= 72 && x.version == FromBig(s[0..2]) && x.algorithm == FromBig(s[2..4])
    requires x.iterations == FromBig(s[4..8]) && x.salt == s[8..24] && x.hash == s[24..72]
    ensures EncVerifier(x) == s[..72]
  {
    Widths();
    BigOfFrom(s[0..2]);
    BigOfFrom(s[2..4]);
    BigOfFrom(s[4..8]);
    Join(s, 8, 24, 72);
    Join(s, 4, 8, 72);
    Join(s, 2, 4, 72);
    Join(s, 0, 2, 72);
  }

  method WriteVerifier(w: ImageWriter, x: Verifier)
    requires w.Valid()
    modifies w`used, w`good, w`out, w.data
    ensures w.Valid() && w.good == (old(w.good) && |old(w.out)| + 72 <= w.capacity)
    ensures w.good ==> w.out == old(w.out) + EncVerifier(x)
  {
    ghost var o := w.out;
    ghost var a, b, c, d, e := Big(2, x.version), Big(2, x.algorithm), Big(4, x.iterations), x.salt, x.hash;
    w.WriteNumber(x.version, 2);
    w.WriteNumber(x.algorithm, 2);
    w.WriteNumber(x.iterations, 4);
    w.Write(x.salt);
    w.Write(x.hash);
    Regroup(o + a + b + c, d, e);
    Regroup(o + a + b, c, d + e);
    Regroup(o + a, b, c + (d + e));
    Regroup(o, a, b + (c + (d + e)));
  }

  // ---------------------------------------------------------------- access entries

  function EncAcl(x: Acl): (s: Bytes)
    ensures |s| == 13
  {
    Big(4, x.ns) + (Big(8, x.resource) + Big(1, x.flags))
  }

  lemma AclEq(a: Acl, s: Bytes, b: Acl, t: Bytes)
    requires EncAcl(a) + s == EncAcl(b) + t
    ensures a == b && s == t
  {
    Widths();
    SplitEq(EncAcl(a), s, EncAcl(b), t);
    BigEq(4, a.ns, Big(8, a.resource) + Big(1, a.flags), b.ns, Big(8, b.resource) + Big(1, b.flags));
    BigEq(8, a.resource, Big(1, a.flags), b.resource, Big(1, b.flags));
    BigEq(1, a.flags, [], b.flags, []);
  }

  method ReadAcl(r: Reader) returns (x: Acl)
    requires r.position <= |r.data|
    modifies r
    ensures r.position <= |r.data| && r.valid == (old(r.valid) && 13 <= |old(r.Rest())|)
    ensures r.valid ==> EncAcl(x) == old(r.Rest())[..13] && r.Rest() == old(r.Rest())[13..]
  {
    Widths();
    ghost var s := r.Rest();
    var ns := r.GetBig(4);
    var resource := r.GetBig(8);
    var flags := r.GetBig(1);
    x := Acl(ns, resource, flags);
    if r.valid {
      Window(s, 0, 4);
      Window(s, 4, 8);
      Window(s, 12, 1);
      AclJoined(s, x);
    }
  }

  /** Fields read one after the other encode to what was read. */
  lemma AclJoined(s: Bytes, x: Acl)
    requires |s| >= 13 && x.ns == FromBig(s[0..4]) && x.resource == FromBig(s[4..12])
    requires x.flags == FromBig(s[12..13])
    ensures EncAcl(x) == s[..13]
  {
    Widths();
    BigOfFrom(s[0..4]);
    BigOfFrom(s[4..12]);
    BigOfFrom(s[12..13]);
    Join(s, 4, 12, 13);
    Join(s, 0, 4, 13);
  }

  method WriteAcl(w: ImageWriter, x: Acl)
    requires w.Valid()
    modifies w`used, w`good, w`out, w.data
    ensures w.Valid() && w.good == (old(w.good) && |old(w.out)| + 13 <= w.capacity)
    ensures w.good ==> w.out == old(w.out) + EncAcl(x)
  {
    ghost var o := w.out;
    ghost var a, b, c := Big(4, x.ns), Big(8, x.resource), Big(1, x.flags);
    w.WriteNumber(x.ns, 4);
    w.WriteNumber(x.resource, 8);
    w.WriteNumber(x.flags, 1);
    Regroup(o + a, b, c);
    Regroup(o, a, b + c);
  }

  // ---------------------------------------------------------------- rows

  function EncRowHead(x: RowHead): (s: Bytes)
    ensures |s| == 25
  {
    Big(4, x.id) + (Big(1, x.active) + (Big(8, x.generation) + (Big(4, x.failed) + Big(8, x.lockout))))
  }

  lemma RowHeadEq(a: RowHead, s: Bytes, b: RowHead, t: Bytes)
    requires EncRowHead(a) + s == EncRowHead(b) + t
    ensures a == b && s == t
  {
    Widths();
    SplitEq(EncRowHead(a), s, EncRowHead(b), t);
    BigEq(4, a.id, Big(1, a.active) + (Big(8, a.generation) + (Big(4, a.failed) + Big(8, a.lockout))), b.id,
          Big(1, b.active) + (Big(8, b.generation) + (Big(4, b.failed) + Big(8, b.lockout))));
    BigEq(1, a.active, Big(8, a.generation) + (Big(4, a.failed) + Big(8, a.lockout)), b.active,
          Big(8, b.generation) + (Big(4, b.failed) + Big(8, b.lockout)));
    BigEq(8, a.generation, Big(4, a.failed) + Big(8, a.lockout), b.generation, Big(4, b.failed) + Big(8, b.lockout));
    BigEq(4, a.failed, Big(8, a.lockout), b.failed, Big(8, b.lockout));
    BigEq(8, a.lockout, [], b.lockout, []);
  }

  method ReadRowHead(r: Reader) returns (x: RowHead)
    requires r.position <= |r.data|
    modifies r
    ensures r.position <= |r.data| && r.valid == (old(r.valid) && 25 <= |old(r.Rest())|)
    ensures r.valid ==> EncRowHead(x) == old(r.Rest())[..25] && r.Rest() == old(r.Rest())[25..]
  {
    Widths();
    ghost var s := r.Rest();
    var id := r.GetBig(4);
    var active := r.GetBig(1);
    var generation := r.GetBig(8);
    var failed := r.GetBig(4);
    var lockout := r.GetBig(8);
    x := RowHead(id, active, generation, failed, lockout);
    if r.valid {
      Window(s, 0, 4);
      Window(s, 4, 1);
      Window(s, 5, 8);
      Window(s, 13, 4);
      Window(s, 17, 8);
      RowHeadJoined(s, x);
    }
  }

  /** Fields read one after the other encode to what was read. */
  lemma RowHeadJoined(s: Bytes, x: RowHead)
    requires |s| >= 25 && x.id == FromBig(s[0..4]) && x.active == FromBig(s[4..5]) && x.generation == FromBig(s[5..13])
    requires x.failed == FromBig(s[13..17]) && x.lockout == FromBig(s[17..25])
    ensures EncRowHead(x) == s[..25]
  {
    BigOfFrom(s[0..4]);
    BigOfFrom(s[4..5]);
    BigOfFrom(s[5..13]);
    BigOfFrom(s[13..17]);
    BigOfFrom(s[17..25]);
    Join(s, 13, 17, 25);
    Join(s, 5, 13, 25);
    Join(s, 4, 5, 25);
    Join(s, 0, 4, 25);
  }

  method WriteRowHead(w: ImageWriter, x: RowHead)
    requires w.Valid()
    modifies w`used, w`good, w`out, w.data
    ensures w.Valid() && w.good == (old(w.good) && |old(w.out)| + 25 <= w.capacity)
    ensures w.good ==> w.out == old(w.out) + EncRowHead(x)
  {
    ghost var o := w.out;
    ghost var a, b, c, d, e := Big(4, x.id), Big(1, x.active), Big(8, x.generation), Big(4, x.failed),
      Big(8, x.lockout);
    w.WriteNumber(x.id, 4);
    w.WriteNumber(x.active, 1);
    w.WriteNumber(x.generation, 8);
    w.WriteNumber(x.failed, 4);
    w.WriteNumber(x.lockout, 8);
    Regroup(o + a + b + c, d, e);
    Regroup(o + a + b, c, d + e);
    Regroup(o + a, b, c + (d + e));
    Regroup(o, a, b + (c + (d + e)));
  }

  // ---------------------------------------------------------------- retries

  function EncRetry(x: Retry): (s: Bytes)
    ensures |s| == 124
  {
    x.request + (x.digest + (Big(4, x.actor) + (Big(8, x.actorGen) + EncPosition(x.result))))
  }

  lemma RetryEq(a: Retry, s: Bytes, b: Retry, t: Bytes)
    requires EncRetry(a) + s == EncRetry(b) + t
    ensures a == b && s == t
  {
    Widths();
    SplitEq(EncRetry(a), s, EncRetry(b), t);
    SplitEq(a.request, a.digest + (Big(4, a.actor) + (Big(8, a.actorGen) + EncPosition(a.result))), b.request,
            b.digest + (Big(4, b.actor) + (Big(8, b.actorGen) + EncPosition(b.result))));
    SplitEq(a.digest, Big(4, a.actor) + (Big(8, a.actorGen) + EncPosition(a.result)), b.digest,
            Big(4, b.actor) + (Big(8, b.actorGen) + EncPosition(b.result)));
    BigEq(4, a.actor, Big(8, a.actorGen) + EncPosition(a.result), b.actor, Big(8, b.actorGen) + EncPosition(b.result));
    BigEq(8, a.actorGen, EncPosition(a.result), b.actorGen, EncPosition(b.result));
    PositionEq(a.result, [], b.result, []);
  }

  method ReadRetry(r: Reader) returns (x: Retry)
    requires r.position <= |r.data|
    modifies r
    ensures r.position <= |r.data| && r.valid == (old(r.valid) && 124 <= |old(r.Rest())|)
    ensures r.valid ==> EncRetry(x) == old(r.Rest())[..124] && r.Rest() == old(r.Rest())[124..]
  {
    Widths();
    ghost var s := r.Rest();
    var request := r.GetBytes(16);
    var digest := r.GetBytes(48);
    var actor := r.GetBig(4);
    var actorGen := r.GetBig(8);
    var result := ReadPosition(r);
    x := Retry(request, digest, actor, actorGen, result);
    if r.valid {
      Window(s, 0, 16);
      Window(s, 16, 48);
      Window(s, 64, 4);
      Window(s, 68, 8);
      Window(s, 76, 48);
      BigOfFrom(s[64..68]);
      BigOfFrom(s[68..76]);
      Join(s, 68, 76, 124);
      Join(s, 64, 68, 124);
      Join(s, 16, 64, 124);
      Join(s, 0, 16, 124);
    }
  }

  method WriteRetry(w: ImageWriter, x: Retry)
    requires w.Valid()
    modifies w`used, w`good, w`out, w.data
    ensures w.Valid() && w.good == (old(w.good) && |old(w.out)| + 124 <= w.capacity)
    ensures w.good ==> w.out == old(w.out) + EncRetry(x)
  {
    ghost var o := w.out;
    ghost var a, b, c, d, e := x.request, x.digest, Big(4, x.actor), Big(8, x.actorGen), EncPosition(x.result);
    w.Write(x.request);
    w.Write(x.digest);
    w.WriteNumber(x.actor, 4);
    w.WriteNumber(x.actorGen, 8);
    WritePosition(w, x.result);
    Regroup(o + a + b + c, d, e);
    Regroup(o + a + b, c, d + e);
    Regroup(o + a, b, c + (d + e));
    Regroup(o, a, b + (c + (d + e)));
  }
}
