/** The fixed-size blocks of a principal-log record: how each is written, read back and told
    apart (core/qihse_principal_record.c). */
module RecordBlocks {
  import opened Prelude
  import opened ByteCodec
  import opened Principal

  type RequestId = s: Bytes | |s| == 16 witness seq(16, _ => 0)
  type Magic = s: Bytes | |s| == 4 witness [0, 0, 0, 0]

  /** Equal encodings that start with the same-width number agree on it and on what follows. */
  lemma FieldEq(n: nat, a: nat, s: Bytes, b: nat, t: Bytes)
    requires a < Pow256(n) && b < Pow256(n) && Little(n, a) + s == Little(n, b) + t
    ensures a == b && s == t
  {
    SplitEq(Little(n, a), s, Little(n, b), t);
    FromOfLittle(n, a);
    FromOfLittle(n, b);
  }

  // ---------------------------------------------------------------- tag

  datatype Tag = Tag(magic: Magic, version: u16, kind: u8, reserved: u8, request: RequestId)

  function EncTag(t: Tag): (s: Bytes)
    ensures |s| == 24
  {
    t.magic + (Little(2, t.version) + (Little(1, t.kind) + (Little(1, t.reserved) + t.request)))
  }

  lemma TagInjective(a: Tag, b: Tag)
    requires EncTag(a) == EncTag(b)
    ensures a == b
  {
    Widths();
    var x, y := Little(1, a.reserved) + a.request, Little(1, b.reserved) + b.request;
    SplitEq(a.magic, Little(2, a.version) + (Little(1, a.kind) + x), b.magic,
            Little(2, b.version) + (Little(1, b.kind) + y));
    FieldEq(2, a.version, Little(1, a.kind) + x, b.version, Little(1, b.kind) + y);
    FieldEq(1, a.kind, x, b.kind, y);
    FieldEq(1, a.reserved, a.request, b.reserved, b.request);
  }

  method ReadTag(r: Reader) returns (t: Tag)
    requires r.position <= |r.data|
    modifies r
    ensures r.position <= |r.data| && r.valid == (old(r.valid) && 24 <= |old(r.Rest())|)
    ensures r.valid ==> EncTag(t) == old(r.Rest())[..24] && r.Rest() == old(r.Rest())[24..]
  {
    Widths();
    ghost var s := r.Rest();
    var magic := r.GetBytes(4);
    var version := r.GetLittle(2);
    var kind := r.GetLittle(1);
    var reserved := r.GetLittle(1);
    var request := r.GetBytes(16);
    t := Tag(magic, version, kind, reserved, request);
    if r.valid {
      Window(s, 0, 4);
      Window(s, 4, 2);
      Window(s, 6, 1);
      Window(s, 7, 1);
      Window(s, 8, 16);
      LittleOfFrom(s[4..6]);
      LittleOfFrom(s[6..7]);
      LittleOfFrom(s[7..8]);
      Join(s, 7, 8, 24);
      Join(s, 6, 7, 24);
      Join(s, 4, 6, 24);
      Join(s, 0, 4, 24);
    }
  }

  method WriteTag(w: Writer, t: Tag)
    requires w.Valid()
    modifies w, w.data
    ensures w.Valid() && w.valid == (old(w.valid) && |old(w.out)| + 24 <= w.length)
    ensures w.valid ==> w.out == old(w.out) + EncTag(t)
  {
    ghost var o, a, b, c, d := w.out, t.magic, Little(2, t.version), Little(1, t.kind), Little(1, t.reserved);
    w.PutBytes(t.magic);
    w.PutLittle(2, t.version);
    w.PutLittle(1, t.kind);
    w.PutLittle(1, t.reserved);
    w.PutBytes(t.request);
    Regroup(o + a + b + c, d, t.request);
    Regroup(o + a + b, c, d + t.request);
    Regroup(o + a, b, c + (d + t.request));
    Regroup(o, a, b + (c + (d + t.request)));
  }

  // ---------------------------------------------------------------- stamp

  datatype Stamp = Stamp(expected: u64, actor: u32, actorGen: u64, principalGen: u64, target: u32)

  function EncStamp(t: Stamp): (s: Bytes)
    ensures |s| == 32
  {
    Little(8, t.expected) + StampTail(t)
  }

  function StampTail(t: Stamp): (s: Bytes)
    ensures |s| == 24
  {
    Little(4, t.actor) + (Little(8, t.actorGen) + (Little(8, t.principalGen) + Little(4, t.target)))
  }

  lemma StampInjective(a: Stamp, b: Stamp)
    requires EncStamp(a) == EncStamp(b)
    ensures a == b
  {
    Widths();
    FieldEq(8, a.expected, StampTail(a), b.expected, StampTail(b));
    var x, y := Little(8, a.principalGen) + Little(4, a.target), Little(8, b.principalGen) + Little(4, b.target);
    FieldEq(4, a.actor, Little(8, a.actorGen) + x, b.actor, Little(8, b.actorGen) + y);
    FieldEq(8, a.actorGen, x, b.actorGen, y);
    FieldEq(8, a.principalGen, Little(4, a.target), b.principalGen, Little(4, b.target));
    FieldEq(4, a.target, [], b.target, []);
  }

  method ReadStamp(r: Reader) returns (t: Stamp)
    requires r.position <= |r.data|
    modifies r
    ensures r.position <= |r.data| && r.valid == (old(r.valid) && 32 <= |old(r.Rest())|)
    ensures r.valid ==> EncStamp(t) == old(r.Rest())[..32] && r.Rest() == old(r.Rest())[32..]
  {
    Widths();
    ghost var s := r.Rest();
    var expected := r.GetLittle(8);
    var actor := r.GetLittle(4);
    var actorGen := r.GetLittle(8);
    var principalGen := r.GetLittle(8);
    var target := r.GetLittle(4);
    t := Stamp(expected, actor, actorGen, principalGen, target);
    if r.valid {
      Window(s, 0, 8);
      Window(s, 8, 4);
      Window(s, 12, 8);
      Window(s, 20, 8);
      Window(s, 28, 4);
      LittleOfFrom(s[0..8]);
      LittleOfFrom(s[8..12]);
      LittleOfFrom(s[12..20]);
      LittleOfFrom(s[20..28]);
      LittleOfFrom(s[28..32]);
      Join(s, 20, 28, 32);
      Join(s, 12, 20, 32);
      Join(s, 8, 12, 32);
      Join(s, 0, 8, 32);
    }
  }

  method WriteStampTail(w: Writer, t: Stamp)
    requires w.Valid()
    modifies w, w.data
    ensures w.Valid() && w.valid == (old(w.valid) && |old(w.out)| + 24 <= w.length)
    ensures w.valid ==> w.out == old(w.out) + StampTail(t)
  {
    ghost var o, a, b, c, d := w.out, Little(4, t.actor), Little(8, t.actorGen), Little(8, t.principalGen),
      Little(4, t.target);
    w.PutLittle(4, t.actor);
    w.PutLittle(8, t.actorGen);
    w.PutLittle(8, t.principalGen);
    w.PutLittle(4, t.target);
    Regroup(o + a + b, c, d);
    Regroup(o + a, b, c + d);
    Regroup(o, a, b + (c + d));
  }

  method WriteStamp(w: Writer, t: Stamp)
    requires w.Valid()
    modifies w, w.data
    ensures w.Valid() && w.valid == (old(w.valid) && |old(w.out)| + 32 <= w.length)
    ensures w.valid ==> w.out == old(w.out) + EncStamp(t)
  {
    w.PutLittle(8, t.expected);
    WriteStampTail(w, t);
    Regroup(old(w.out), Little(8, t.expected), StampTail(t));
  }

  // ---------------------------------------------------------------- grant

  datatype Grant = Grant(tenant: u32, role: u16, classification: u16, sci: u16, create: u8, required: u8, present: u8)

  function EncGrant(g: Grant): (s: Bytes)
    ensures |s| == 13
  {
    Little(4, g.tenant)
    + (Little(2, g.role) + (Little(2, g.classification) + (Little(2, g.sci) + [g.create, g.required, g.present])))
  }

  lemma GrantInjective(a: Grant, b: Grant)
    requires EncGrant(a) == EncGrant(b)
    ensures a == b
  {
    Widths();
    var x, y := [a.create, a.required, a.present], [b.create, b.required, b.present];
    FieldEq(4, a.tenant, Little(2, a.role) + (Little(2, a.classification) + (Little(2, a.sci) + x)),
            b.tenant, Little(2, b.role) + (Little(2, b.classification) + (Little(2, b.sci) + y)));
    FieldEq(2, a.role, Little(2, a.classification) + (Little(2, a.sci) + x), b.role,
            Little(2, b.classification) + (Little(2, b.sci) + y));
    FieldEq(2, a.classification, Little(2, a.sci) + x, b.classification, Little(2, b.sci) + y);
    FieldEq(2, a.sci, x, b.sci, y);
    assert a.create == x[0] && a.required == x[1] && a.present == x[2];
  }

  method ReadGrant(r: Reader) returns (g: Grant)
    requires r.position <= |r.data|
    modifies r
    ensures r.position <= |r.data| && r.valid == (old(r.valid) && 13 <= |old(r.Rest())|)
    ensures r.valid ==> EncGrant(g) == old(r.Rest())[..13] && r.Rest() == old(r.Rest())[13..]
  {
    Widths();
    ghost var s := r.Rest();
    var tenant := r.GetLittle(4);
    var role := r.GetLittle(2);
    var classification := r.GetLittle(2);
    var sci := r.GetLittle(2);
    var flags := r.GetBytes(3);
    g := Grant(tenant, role, classification, sci, flags[0], flags[1], flags[2]);
    if r.valid {
      assert [flags[0], flags[1], flags[2]] == flags;
      Window(s, 0, 4);
      Window(s, 4, 2);
      Window(s, 6, 2);
      Window(s, 8, 2);
      Window(s, 10, 3);
      LittleOfFrom(s[0..4]);
      LittleOfFrom(s[4..6]);
      LittleOfFrom(s[6..8]);
      LittleOfFrom(s[8..10]);
      Join(s, 8, 10, 13);
      Join(s, 6, 8, 13);
      Join(s, 4, 6, 13);
      Join(s, 0, 4, 13);
    }
  }

  method WriteGrant(w: Writer, g: Grant)
    requires w.Valid()
    modifies w, w.data
    ensures w.Valid() && w.valid == (old(w.valid) && |old(w.out)| + 13 <= w.length)
    ensures w.valid ==> w.out == old(w.out) + EncGrant(g)
  {
    ghost var o, a, b, c, d := w.out, Little(4, g.tenant), Little(2, g.role), Little(2, g.classification),
      Little(2, g.sci);
    ghost var e := [g.create, g.required, g.present];
    w.PutLittle(4, g.tenant);
    w.PutLittle(2, g.role);
    w.PutLittle(2, g.classification);
    w.PutLittle(2, g.sci);
    w.PutBytes([g.create, g.required, g.present]);
    Regroup(o + a + b + c, d, e);
    Regroup(o + a + b, c, d + e);
    Regroup(o + a, b, c + (d + e));
    Regroup(o, a, b + (c + (d + e)));
  }

  // ---------------------------------------------------------------- verifier

  function EncVerifier(v: Verifier): (s: Bytes)
    ensures |s| == 72
  {
    Little(2, v.version) + (Little(2, v.algorithm) + (Little(4, v.iterations) + (v.salt + v.hash)))
  }

  lemma VerifierInjective(a: Verifier, b: Verifier)
    requires EncVerifier(a) == EncVerifier(b)
    ensures a == b
  {
    Widths();
    var x, y := a.salt + a.hash, b.salt + b.hash;
    FieldEq(2, a.version, Little(2, a.algorithm) + (Little(4, a.iterations) + x), b.version,
            Little(2, b.algorithm) + (Little(4, b.iterations) + y));
    FieldEq(2, a.algorithm, Little(4, a.iterations) + x, b.algorithm, Little(4, b.iterations) + y);
    FieldEq(4, a.iterations, x, b.iterations, y);
    SplitEq(a.salt, a.hash, b.salt, b.hash);
  }

  method ReadVerifier(r: Reader) returns (v: Verifier)
    requires r.position <= |r.data|
    modifies r
    ensures r.position <= |r.data| && r.valid == (old(r.valid) && 72 <= |old(r.Rest())|)
    ensures r.valid ==> EncVerifier(v) == old(r.Rest())[..72] && r.Rest() == old(r.Rest())[72..]
  {
    Widths();
    ghost var s := r.Rest();
    var version := r.GetLittle(2);
    var algorithm := r.GetLittle(2);
    var iterations := r.GetLittle(4);
    var salt := r.GetBytes(16);
    var hash := r.GetBytes(48);
    v := Verifier(version, algorithm, iterations, salt, hash);
    if r.valid {
      Window(s, 0, 2);
      Window(s, 2, 2);
      Window(s, 4, 4);
      Window(s, 8, 16);
      Window(s, 24, 48);
      LittleOfFrom(s[0..2]);
      LittleOfFrom(s[2..4]);
      LittleOfFrom(s[4..8]);
      Join(s, 8, 24, 72);
      Join(s, 4, 8, 72);
      Join(s, 2, 4, 72);
      Join(s, 0, 2, 72);
    }
  }

  method WriteVerifier(w: Writer, v: Verifier)
    requires w.Valid()
    modifies w, w.data
    ensures w.Valid() && w.valid == (old(w.valid) && |old(w.out)| + 72 <= w.length)
    ensures w.valid ==> w.out == old(w.out) + EncVerifier(v)
  {
    ghost var o, a, b, c := w.out, Little(2, v.version), Little(2, v.algorithm), Little(4, v.iterations);
    w.PutLittle(2, v.version);
    w.PutLittle(2, v.algorithm);
    w.PutLittle(4, v.iterations);
    w.PutBytes(v.salt);
    w.PutBytes(v.hash);
    Regroup(o + a + b + c, v.salt, v.hash);
    Regroup(o + a + b, c, v.salt + v.hash);
    Regroup(o + a, b, c + (v.salt + v.hash));
    Regroup(o, a, b + (c + (v.salt + v.hash)));
  }

  // ---------------------------------------------------------------- access entries

  function EncAcl(a: Acl): (s: Bytes)
    ensures |s| == 13
  {
    Little(4, a.ns) + (Little(8, a.resource) + [a.flags])
  }

  function EncAcls(acls: seq<Acl>): (s: Bytes)
    ensures |s| == 13 * |acls|
  {
    if acls == [] then [] else EncAcls(acls[..|acls| - 1]) + EncAcl(acls[|acls| - 1])
  }

  lemma AclInjective(a: Acl, b: Acl)
    requires EncAcl(a) == EncAcl(b)
    ensures a == b
  {
    Widths();
    FieldEq(4, a.ns, Little(8, a.resource) + [a.flags], b.ns, Little(8, b.resource) + [b.flags]);
    FieldEq(8, a.resource, [a.flags], b.resource, [b.flags]);
    assert a.flags == [a.flags][0];
  }

  lemma {:induction false} AclsInjective(a: seq<Acl>, b: seq<Acl>)
    requires |a| == |b| && EncAcls(a) == EncAcls(b)
    ensures a == b
  {
    if a != [] {
      var n := |a| - 1;
      SplitEq(EncAcls(a[..n]), EncAcl(a[n]), EncAcls(b[..n]), EncAcl(b[n]));
      AclsInjective(a[..n], b[..n]);
      AclInjective(a[n], b[n]);
      assert a == a[..n] + [a[n]] && b == b[..n] + [b[n]];
    }
  }

  method ReadAcl(r: Reader) returns (a: Acl)
    requires r.position <= |r.data|
    modifies r
    ensures r.position <= |r.data| && r.valid == (old(r.valid) && 13 <= |old(r.Rest())|)
    ensures r.valid ==> EncAcl(a) == old(r.Rest())[..13] && r.Rest() == old(r.Rest())[13..]
  {
    Widths();
    ghost var s := r.Rest();
    var ns := r.GetLittle(4);
    var resource := r.GetLittle(8);
    var flags := r.GetBytes(1);
    a := Acl(ns, resource, flags[0]);
    if r.valid {
      assert [flags[0]] == flags;
      Window(s, 0, 4);
      Window(s, 4, 8);
      Window(s, 12, 1);
      LittleOfFrom(s[0..4]);
      LittleOfFrom(s[4..12]);
      Join(s, 4, 12, 13);
      Join(s, 0, 4, 13);
    }
  }

  lemma EncAclsGrow(acls: seq<Acl>, a: Acl, s: Bytes)
    requires 13 * |acls| + 13 <= |s| && EncAcls(acls) == s[..13 * |acls|] && EncAcl(a) == s[13 * |acls|..][..13]
    ensures EncAcls(acls + [a]) == s[..13 * |acls + [a]|] && s[13 * |acls|..][13..] == s[13 * |acls + [a]|..]
  {
    assert (acls + [a])[..|acls|] == acls;
    Window(s, 13 * |acls|, 13);
    Join(s, 0, 13 * |acls|, 13 * |acls| + 13);
  }

  /** The decoding loop, which stops at the first short read. */
  method ReadAcls(r: Reader, count: nat) returns (acls: seq<Acl>)
    requires r.position <= |r.data|
    modifies r
    ensures r.position <= |r.data| && r.valid == (old(r.valid) && 13 * count <= |old(r.Rest())|)
    ensures r.valid ==>
      |acls| == count && EncAcls(acls) == old(r.Rest())[..13 * count] && r.Rest() == old(r.Rest())[13 * count..]
  {
    acls := [];
    ghost var s := r.Rest();
    while r.valid && |acls| < count
      invariant r.position <= |r.data| && |acls| <= count
      invariant if r.valid then old(r.valid) && 13 * |acls| <= |s| else !(old(r.valid) && 13 * count <= |s|)
      invariant r.valid ==> EncAcls(acls) == s[..13 * |acls|] && r.Rest() == s[13 * |acls|..]
      decreases r.valid, count - |acls|
    {
      var a := ReadAcl(r);
      if r.valid {
        EncAclsGrow(acls, a, s);
        acls := acls + [a];
      }
    }
  }

  method WriteAcl(w: Writer, a: Acl)
    requires w.Valid()
    modifies w, w.data
    ensures w.Valid() && w.valid == (old(w.valid) && |old(w.out)| + 13 <= w.length)
    ensures w.valid ==> w.out == old(w.out) + EncAcl(a)
  {
    ghost var o := w.out;
    w.PutLittle(4, a.ns);
    w.PutLittle(8, a.resource);
    w.PutBytes([a.flags]);
    Regroup(o + Little(4, a.ns), Little(8, a.resource), [a.flags]);
    Regroup(o, Little(4, a.ns), Little(8, a.resource) + [a.flags]);
  }

  method WriteAcls(w: Writer, acls: seq<Acl>)
    requires w.Valid()
    modifies w, w.data
    ensures w.Valid() && w.valid == (old(w.valid) && |old(w.out)| + 13 * |acls| <= w.length)
    ensures w.valid ==> w.out == old(w.out) + EncAcls(acls)
  {
    var i := 0;
    ghost var o := w.out;
    assert o + EncAcls(acls[..0]) == o;
    while i < |acls|
      invariant 0 <= i <= |acls| && w.Valid()
      invariant w.valid == (old(w.valid) && |o| + 13 * i <= w.length)
      invariant w.valid ==> w.out == o + EncAcls(acls[..i])
    {
      WriteAcl(w, acls[i]);
      Regroup(o, EncAcls(acls[..i]), EncAcl(acls[i]));
      assert acls[..i + 1][..i] == acls[..i];
      i := i + 1;
    }
    assert acls[..i] == acls;
  }
}
