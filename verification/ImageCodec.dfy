/** Principals and rows of an authority image as bytes (core/qihse_auth_archive.c). */
module ImageCodec {
  import opened Prelude
  import opened ByteCodec
  import opened Principal
  import opened ImageBlocks

  // ---------------------------------------------------------------- access lists

  function EncAcls(acls: seq<Acl>): (s: Bytes)
    ensures |s| == 13 * |acls|
  {
    if acls == [] then [] else EncAcls(acls[..|acls| - 1]) + EncAcl(acls[|acls| - 1])
  }

  lemma {:induction false} AclsInjective(a: seq<Acl>, b: seq<Acl>)
    requires |a| == |b| && EncAcls(a) == EncAcls(b)
    ensures a == b
  {
    if a != [] {
      var n := |a| - 1;
      SplitEq(EncAcls(a[..n]), EncAcl(a[n]), EncAcls(b[..n]), EncAcl(b[n]));
      AclsInjective(a[..n], b[..n]);
      AclEq(a[n], [], b[n], []);
      assert a == a[..n] + [a[n]] && b == b[..n] + [b[n]];
    }
  }

  function EncList(acls: seq<Acl>): (s: Bytes)
    requires |acls| <= ACL_MAX
    ensures |s| == 1 + 13 * |acls|
  {
    [|acls|] + EncAcls(acls)
  }

  lemma ListEq(a: seq<Acl>, s: Bytes, b: seq<Acl>, t: Bytes)
    requires |a| <= ACL_MAX && |b| <= ACL_MAX && EncList(a) + s == EncList(b) + t
    ensures a == b && s == t
  {
    assert (EncList(a) + s)[0] == |a| && (EncList(b) + t)[0] == |b|;
    SplitEq(EncList(a), s, EncList(b), t);
    SplitEq([|a|], EncAcls(a), [|b|], EncAcls(b));
    AclsInjective(a, b);
  }

  lemma EncAclsGrow(acls: seq<Acl>, a: Acl, s: Bytes)
    requires 13 * |acls| + 13 <= |s| && EncAcls(acls) == s[..13 * |acls|] && EncAcl(a) == s[13 * |acls|..][..13]
    ensures EncAcls(acls + [a]) == s[..13 * |acls + [a]|] && s[13 * |acls|..][13..] == s[13 * |acls + [a]|..]
  {
    assert (acls + [a])[..|acls|] == acls;
    Window(s, 13 * |acls|, 13);
    Join(s, 0, 13 * |acls|, 13 * |acls| + 13);
  }

  method ReadAcls(r: Reader, count: nat) returns (acls: seq<Acl>)
    requires r.position <= |r.data|
    modifies r
    ensures r.position <= |r.data| && r.valid == (old(r.valid) && 13 * count <= |old(r.Rest())|)
    ensures |acls| == count
    ensures r.valid ==> EncAcls(acls) == old(r.Rest())[..13 * count] && r.Rest() == old(r.Rest())[13 * count..]
  {
    acls := [];
    ghost var s := r.Rest();
    while |acls| < count
      invariant r.position <= |r.data| && |acls| <= count
      invariant r.valid == (old(r.valid) && 13 * |acls| <= |s|)
      invariant r.valid ==> EncAcls(acls) == s[..13 * |acls|] && r.Rest() == s[13 * |acls|..]
    {
      var a := ReadAcl(r);
      if r.valid {
        EncAclsGrow(acls, a, s);
      }
      acls := acls + [a];
    }
  }

  method WriteAcls(w: ImageWriter, acls: seq<Acl>)
    requires w.Valid()
    modifies w`used, w`good, w`out, w.data
    ensures w.Valid() && w.good == (old(w.good) && |old(w.out)| + 13 * |acls| <= w.capacity)
    ensures w.good ==> w.out == old(w.out) + EncAcls(acls)
  {
    var i := 0;
    ghost var o := w.out;
    assert o + EncAcls(acls[..0]) == o;
    while i < |acls|
      invariant 0 <= i <= |acls| && w.Valid()
      invariant w.good == (old(w.good) && |o| + 13 * i <= w.capacity)
      invariant w.good ==> w.out == o + EncAcls(acls[..i])
    {
      WriteAcl(w, acls[i]);
      Regroup(o, EncAcls(acls[..i]), EncAcl(acls[i]));
      assert acls[..i + 1][..i] == acls[..i];
      i := i + 1;
    }
    assert acls[..i] == acls;
  }

  // ---------------------------------------------------------------- principals

  /** A principal as it stands in the bytes. */
  datatype Raw = Raw(identity: Identity, clearance: Clearance, username: Text, credential: Text, verifier: Verifier,
                     acls: seq<Acl>)

  function Flags(u: User): u8 { (if u.canCreate then 1 else 0) + (if u.tokenRequired then 2 else 0) }

  function RawOf(u: User): Raw {
    Raw(Identity(u.id, u.tenant, u.role), Clearance(u.classification, u.sci, Flags(u)),
        Padded(u.username), Padded(u.credential), u.verifier, u.acls)
  }

  function UserOf(w: Raw): User {
    User(w.identity.id, w.identity.role, w.clearance.classification, w.clearance.sci, w.identity.tenant,
         w.username, w.clearance.flags % 2 == 1, false, w.clearance.flags / 2 % 2 == 1, w.credential, w.verifier, true,
         w.acls)
  }

  function EncFixed(w: Raw): (s: Bytes)
    ensures |s| == 215
  {
    EncIdentity(w.identity) + (EncClearance(w.clearance) + (w.username + (w.credential + EncVerifier(w.verifier))))
  }

  function EncRaw(w: Raw): (s: Bytes)
    requires |w.acls| <= ACL_MAX
    ensures |s| == 216 + 13 * |w.acls|
  {
    EncFixed(w) + EncList(w.acls)
  }

  function EncPrincipal(u: User): (s: Bytes)
    requires |u.acls| <= ACL_MAX
    ensures |s| == 216 + 13 * |u.acls|
  {
    EncRaw(RawOf(u))
  }

  /** A valid principal with nothing behind its terminators. */
  predicate Clean(u: User, root: bool) {
    FieldsValid(u, root) && ZeroPadded(u.username) && ZeroPadded(u.credential)
  }

  lemma FixedEq(a: Raw, b: Raw)
    requires EncFixed(a) == EncFixed(b)
    ensures a.(acls := []) == b.(acls := [])
  {
    IdentityEq(a.identity, EncClearance(a.clearance) + (a.username + (a.credential + EncVerifier(a.verifier))),
               b.identity, EncClearance(b.clearance) + (b.username + (b.credential + EncVerifier(b.verifier))));
    ClearanceEq(a.clearance, a.username + (a.credential + EncVerifier(a.verifier)), b.clearance,
                b.username + (b.credential + EncVerifier(b.verifier)));
    SplitEq(a.username, a.credential + EncVerifier(a.verifier), b.username, b.credential + EncVerifier(b.verifier));
    SplitEq(a.credential, EncVerifier(a.verifier), b.credential, EncVerifier(b.verifier));
    VerifierEq(a.verifier, [], b.verifier, []);
  }

  lemma RawEq(a: Raw, s: Bytes, b: Raw, t: Bytes)
    requires |a.acls| <= ACL_MAX && |b.acls| <= ACL_MAX && EncRaw(a) + s == EncRaw(b) + t
    ensures a == b && s == t
  {
    Regroup(EncFixed(a), EncList(a.acls), s);
    Regroup(EncFixed(b), EncList(b.acls), t);
    SplitEq(EncFixed(a), EncList(a.acls) + s, EncFixed(b), EncList(b.acls) + t);
    FixedEq(a, b);
    ListEq(a.acls, s, b.acls, t);
  }

  lemma UserOfRaw(u: User, root: bool)
    requires Clean(u, root)
    ensures UserOf(RawOf(u)) == u
  {
    PaddedFixed(u.username);
    PaddedFixed(u.credential);
  }

  /** Clean principals can be split off unambiguously. */
  lemma PrincipalEq(a: User, s: Bytes, b: User, t: Bytes, root: bool)
    requires Clean(a, root) && Clean(b, root) && EncPrincipal(a) + s == EncPrincipal(b) + t
    ensures a == b && s == t
  {
    RawEq(RawOf(a), s, RawOf(b), t);
    UserOfRaw(a, root);
    UserOfRaw(b, root);
  }

  /** The bytes hold a whole principal, its own entry count included. */
  predicate RawFits(s: Bytes) {
    |s| >= 216 && var n: nat := s[215]; n <= ACL_MAX && |s| >= 216 + 13 * n
  }

  method ReadFixed(r: Reader) returns (w: Raw)
    requires r.position <= |r.data|
    modifies r
    ensures r.position <= |r.data| && r.valid == (old(r.valid) && 215 <= |old(r.Rest())|)
    ensures r.valid ==> EncFixed(w) == old(r.Rest())[..215] && r.Rest() == old(r.Rest())[215..]
  {
    ghost var s := r.Rest();
    var identity := ReadIdentity(r);
    var clearance := ReadClearance(r);
    var username := r.GetBytes(64);
    var credential := r.GetBytes(64);
    var verifier := ReadVerifier(r);
    w := Raw(identity, clearance, username, credential, verifier, []);
    if r.valid {
      Window(s, 0, 10);
      Window(s, 10, 5);
      Window(s, 15, 64);
      Window(s, 79, 64);
      Window(s, 143, 72);
      Join(s, 79, 143, 215);
      Join(s, 15, 79, 215);
      Join(s, 10, 15, 215);
      Join(s, 0, 10, 215);
    }
  }

  /** Fixed part, count and entries together. */
  lemma RawJoined(s: Bytes, w: Raw)
    requires |w.acls| <= ACL_MAX && |s| >= 216 + 13 * |w.acls|
    requires EncFixed(w) == s[..215] && s[215] == |w.acls| && EncAcls(w.acls) == s[216..][..13 * |w.acls|]
    ensures s == EncRaw(w) + s[216 + 13 * |w.acls|..] && s[216..][13 * |w.acls|..] == s[216 + 13 * |w.acls|..]
  {
    var n := 216 + 13 * |w.acls|;
    Window(s, 216, 13 * |w.acls|);
    assert [|w.acls|] == s[215..216];
    Join(s, 215, 216, n);
    Join(s, 0, 215, n);
    assert s == s[0..n] + s[n..];
  }

  method ReadRaw(r: Reader) returns (w: Raw)
    requires r.position <= |r.data|
    modifies r
    ensures r.position <= |r.data| && r.valid == (old(r.valid) && RawFits(old(r.Rest())))
    ensures |w.acls| <= ACL_MAX
    ensures r.valid ==> old(r.Rest()) == EncRaw(w) + r.Rest()
  {
    ghost var s := r.Rest();
    w := ReadFixed(r);
    var count := r.GetBytes(1);
    w := w.(acls := []);
    if r.valid { assert count[0] == s[215]; }
    if count[0] > ACL_MAX { r.valid := false; return; }
    var acls := ReadAcls(r, count[0]);
    w := w.(acls := acls);
    if r.valid {
      Window(s, 215, 1);
      RawJoined(s, w);
    }
  }

  /** The bytes begin with a clean principal. */
  ghost predicate Starts(s: Bytes, root: bool) {
    exists q: User, t: Bytes :: Clean(q, root) && s == EncPrincipal(q) + t
  }

  lemma StartsFits(s: Bytes, root: bool)
    requires Starts(s, root)
    ensures RawFits(s)
  {
    var q, t :| Clean(q, root) && s == EncPrincipal(q) + t;
    var w := RawOf(q);
    Peel(EncFixed(w), EncList(w.acls));
    assert EncRaw(w)[215] == EncList(w.acls)[0] == |w.acls|;
    assert s[215] == EncRaw(w)[215];
  }

  /** What the reader checks of the raw fields. */
  predicate RawClean(w: Raw, root: bool) {
    && w.clearance.flags <= 3 && Terminated(w.username) && ZeroPadded(w.username)
    && Terminated(w.credential) && ZeroPadded(w.credential) && FieldsValid(UserOf(w), root)
  }

  lemma CleanRaw(w: Raw, root: bool)
    requires RawClean(w, root)
    ensures Clean(UserOf(w), root) && RawOf(UserOf(w)) == w
  {
    PaddedFixed(w.username);
    PaddedFixed(w.credential);
  }

  lemma StartsWith(s: Bytes, u: User, t: Bytes, root: bool)
    requires Clean(u, root) && s == EncPrincipal(u) + t
    ensures Starts(s, root)
  {}

  lemma RawStarts(s: Bytes, w: Raw, t: Bytes, root: bool)
    requires |w.acls| <= ACL_MAX && s == EncRaw(w) + t
    ensures RawClean(w, root) <==> Starts(s, root)
    ensures RawClean(w, root) ==> Clean(UserOf(w), root) && s == EncPrincipal(UserOf(w)) + t
  {
    if RawClean(w, root) {
      CleanRaw(w, root);
      StartsWith(s, UserOf(w), t, root);
    }
    if Starts(s, root) { StartsClean(s, w, t, root); }
  }

  lemma StartsClean(s: Bytes, w: Raw, rest: Bytes, root: bool)
    requires Starts(s, root) && |w.acls| <= ACL_MAX && s == EncRaw(w) + rest
    ensures RawClean(w, root)
  {
    var q, t :| Clean(q, root) && s == EncPrincipal(q) + t;
    RawEq(RawOf(q), t, w, rest);
    UserOfRaw(q, root);
    PaddedIsCanonical(q.username);
    PaddedIsCanonical(q.credential);
  }

  method CheckRaw(w: Raw, root: bool) returns (ok: bool)
    ensures ok == RawClean(w, root)
  {
    if w.clearance.flags > 3 { return false; }
    var name := BoundedString(w.username, false, true);
    var credential := BoundedString(w.credential, false, true);
    var fields := ValidateFields(UserOf(w), root);
    return name && credential && fields;
  }

  /** `read_principal`: succeeds exactly on bytes that begin with a clean principal. */
  method ReadPrincipal(r: Reader, root: bool) returns (u: User)
    requires r.position <= |r.data|
    modifies r
    ensures r.position <= |r.data| && r.valid == (old(r.valid) && Starts(old(r.Rest()), root))
    ensures r.valid ==> Clean(u, root) && old(r.Rest()) == EncPrincipal(u) + r.Rest()
  {
    ghost var s := r.Rest();
    var w := ReadRaw(r);
    var ok := CheckRaw(w, root);
    u := UserOf(w);
    if Starts(s, root) { StartsFits(s, root); }
    if r.valid { RawStarts(s, w, r.Rest(), root); }
    r.valid := r.valid && ok;
  }

  method WritePrincipal(w: ImageWriter, u: User)
    requires w.Valid() && |u.acls| <= ACL_MAX && Terminated(u.username) && Terminated(u.credential)
    modifies w`used, w`good, w`out, w.data
    ensures w.Valid() && w.good == (old(w.good) && |old(w.out)| + |EncPrincipal(u)| <= w.capacity)
    ensures w.good ==> w.out == old(w.out) + EncPrincipal(u)
  {
    ghost var o, raw := w.out, RawOf(u);
    ghost var a, b, c, d, e := EncIdentity(raw.identity), EncClearance(raw.clearance), raw.username, raw.credential,
      EncVerifier(raw.verifier);
    WriteIdentity(w, Identity(u.id, u.tenant, u.role));
    WriteClearance(w, Clearance(u.classification, u.sci, Flags(u)));
    w.Write(Padded(u.username));
    w.Write(Padded(u.credential));
    WriteVerifier(w, u.verifier);
    Regroup(o + a + b + c, d, e);
    Regroup(o + a + b, c, d + e);
    Regroup(o + a, b, c + (d + e));
    Regroup(o, a, b + (c + (d + e)));
    WriteList(w, u.acls);
    Regroup(o, EncFixed(raw), EncList(raw.acls));
  }

  method WriteList(w: ImageWriter, acls: seq<Acl>)
    requires w.Valid() && |acls| <= ACL_MAX
    modifies w`used, w`good, w`out, w.data
    ensures w.Valid() && w.good == (old(w.good) && |old(w.out)| + |EncList(acls)| <= w.capacity)
    ensures w.good ==> w.out == old(w.out) + EncList(acls)
  {
    ghost var o := w.out;
    w.WriteNumber(|acls|, 1);
    assert Big(1, |acls|) == [|acls|];
    WriteAcls(w, acls);
    Regroup(o, [|acls|], EncAcls(acls));
  }
}
