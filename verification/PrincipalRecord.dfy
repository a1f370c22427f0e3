/** The principal-log record: its canonical encoding and the rule that authorises it
    (core/qihse_principal_record.c). */
module PrincipalRecord {
  import opened Prelude
  import opened ByteCodec
  import opened Principal
  import opened RecordBlocks

  const RECORD_MAX: nat := 2048
  const KIND_PUT: u8 := 1
  const KIND_DELETE: u8 := 2
  const QPR1: Magic := [0x51, 0x50, 0x52, 0x31]

  datatype Body = Put(principal: User) | Delete

  datatype Record = Record(request: RequestId, expected: u64, actor: u32, actorGen: u64,
                           principalGen: u64, target: u32, body: Body)

  predicate ValidRecord(r: Record) {
    && 0 < r.target < MAX_IDS && r.actor < MAX_IDS && r.principalGen != 0 && r.actorGen != 0
    && NonZero(r.request)
    && (r.body.Put? ==> r.body.principal.id == r.target && FieldsValid(r.body.principal, false))
  }

  /** Nothing is hidden behind a string terminator. */
  predicate Canonical(r: Record) {
    r.body.Put? ==> ZeroPadded(r.body.principal.username) && ZeroPadded(r.body.principal.credential)
  }

  function Canon(r: Record): Record {
    if r.body.Delete? then r
    else r.(body := Put(r.body.principal.(username := Padded(r.body.principal.username),
                                          credential := Padded(r.body.principal.credential))))
  }

  /** `valid_record` */
  method ValidateRecord(r: Record) returns (ok: bool)
    ensures ok == ValidRecord(r)
    ensures ok <==>
      && 1 <= r.target <= 65535 && r.actor <= 65535 && r.principalGen != 0 && r.actorGen != 0
      && (exists k :: 0 <= k < 16 && r.request[k] != 0)
      && (r.body.Put? ==> r.body.principal.id == r.target && FieldsValid(r.body.principal, false))
  {
    if r.target == 0 || r.target >= MAX_IDS || r.actor >= MAX_IDS || r.principalGen == 0
       || r.actorGen == 0 { return false; }
    var i, nonzero := 0, false;
    while i < |r.request|
      invariant 0 <= i <= |r.request| && nonzero == NonZero(r.request[..i])
    {
      assert r.request[..i + 1] == r.request[..i] + [r.request[i]];
      nonzero := nonzero || r.request[i] != 0;
      i := i + 1;
    }
    assert r.request[..i] == r.request;
    if !nonzero { return false; }
    if r.body.Delete? { return true; }
    if r.body.principal.id != r.target { return false; }
    ok := ValidateFields(r.body.principal, false);
  }

  // ---------------------------------------------------------------- the encoding

  /** The user part as it stands in the bytes. */
  datatype Raw = Raw(grant: Grant, username: Text, credential: Text, verifier: Verifier, acls: seq<Acl>)

  function Flag(b: bool): u8 { if b then 1 else 0 }

  function RawOf(u: User): Raw {
    Raw(Grant(u.tenant, u.role, u.classification, u.sci, Flag(u.canCreate), Flag(u.tokenRequired),
              Flag(u.tokenPresent)),
        Padded(u.username), Padded(u.credential), u.verifier, u.acls)
  }

  function UserOf(w: Raw, id: u32): User {
    User(id, w.grant.role, w.grant.classification, w.grant.sci, w.grant.tenant, w.username, w.grant.create == 1,
         w.grant.present == 1, w.grant.required == 1, w.credential, w.verifier, true, w.acls)
  }

  function EncFixed(w: Raw): (s: Bytes)
    ensures |s| == 213
  {
    EncGrant(w.grant) + (w.username + (w.credential + EncVerifier(w.verifier)))
  }

  function EncList(acls: seq<Acl>): (s: Bytes)
    requires |acls| <= ACL_MAX
    ensures |s| == 1 + 13 * |acls|
  {
    [|acls|] + EncAcls(acls)
  }

  function EncRaw(w: Raw): (s: Bytes)
    requires |w.acls| <= ACL_MAX
    ensures |s| == 214 + 13 * |w.acls|
  {
    EncFixed(w) + EncList(w.acls)
  }

  function TagOf(r: Record): Tag { Tag(QPR1, 1, if r.body.Put? then KIND_PUT else KIND_DELETE, 0, r.request) }

  function StampOf(r: Record): Stamp { Stamp(r.expected, r.actor, r.actorGen, r.principalGen, r.target) }

  function EncBody(b: Body): Bytes
    requires b.Put? ==> |b.principal.acls| <= ACL_MAX
  {
    if b.Put? then EncRaw(RawOf(b.principal)) else []
  }

  function Encode(r: Record): (s: Bytes)
    requires r.body.Put? ==> |r.body.principal.acls| <= ACL_MAX
    ensures |s| <= 1102
  {
    EncTag(TagOf(r)) + (EncStamp(StampOf(r)) + EncBody(r.body))
  }

  // ---------------------------------------------------------------- telling encodings apart

  lemma FixedInjective(a: Raw, b: Raw)
    requires EncFixed(a) == EncFixed(b)
    ensures a.grant == b.grant && a.username == b.username && a.credential == b.credential && a.verifier == b.verifier
  {
    SplitEq(EncGrant(a.grant), a.username + (a.credential + EncVerifier(a.verifier)),
            EncGrant(b.grant), b.username + (b.credential + EncVerifier(b.verifier)));
    SplitEq(a.username, a.credential + EncVerifier(a.verifier), b.username, b.credential + EncVerifier(b.verifier));
    SplitEq(a.credential, EncVerifier(a.verifier), b.credential, EncVerifier(b.verifier));
    GrantInjective(a.grant, b.grant);
    VerifierInjective(a.verifier, b.verifier);
  }

  lemma RawInjective(a: Raw, b: Raw)
    requires |a.acls| <= ACL_MAX && |b.acls| <= ACL_MAX && EncRaw(a) == EncRaw(b)
    ensures a == b
  {
    SplitEq(EncFixed(a), EncList(a.acls), EncFixed(b), EncList(b.acls));
    FixedInjective(a, b);
    SplitEq([|a.acls|], EncAcls(a.acls), [|b.acls|], EncAcls(b.acls));
    assert [|a.acls|][0] == [|b.acls|][0];
    AclsInjective(a.acls, b.acls);
  }

  lemma UserOfRaw(u: User, id: u32)
    requires FieldsValid(u, false) && u.id == id && ZeroPadded(u.username) && ZeroPadded(u.credential)
    ensures UserOf(RawOf(u), id) == u
  {
    PaddedFixed(u.username);
    PaddedFixed(u.credential);
  }

  /** Different canonical records have different bytes. */
  lemma EncodeInjective(a: Record, b: Record)
    requires ValidRecord(a) && ValidRecord(b) && Canonical(a) && Canonical(b) && Encode(a) == Encode(b)
    ensures a == b
  {
    SplitEq(EncTag(TagOf(a)), EncStamp(StampOf(a)) + EncBody(a.body), EncTag(TagOf(b)),
            EncStamp(StampOf(b)) + EncBody(b.body));
    SplitEq(EncStamp(StampOf(a)), EncBody(a.body), EncStamp(StampOf(b)), EncBody(b.body));
    TagInjective(TagOf(a), TagOf(b));
    StampInjective(StampOf(a), StampOf(b));
    if a.body.Put? {
      RawInjective(RawOf(a.body.principal), RawOf(b.body.principal));
      UserOfRaw(a.body.principal, a.target);
      UserOfRaw(b.body.principal, b.target);
    }
  }

  /** Bytes behind a terminator never reach the encoding. */
  lemma CanonEncodes(r: Record)
    requires ValidRecord(r)
    ensures ValidRecord(Canon(r)) && Canonical(Canon(r)) && Encode(Canon(r)) == Encode(r)
  {
    if r.body.Put? {
      PaddedIsCanonical(r.body.principal.username);
      PaddedIsCanonical(r.body.principal.credential);
    }
  }

  // ---------------------------------------------------------------- encoder

  method WriteRaw(w: Writer, u: User)
    requires w.Valid() && |u.acls| <= ACL_MAX
    modifies w, w.data
    ensures w.Valid() && w.valid == (old(w.valid) && |old(w.out)| + |EncRaw(RawOf(u))| <= w.length)
    ensures w.valid ==> w.out == old(w.out) + EncRaw(RawOf(u))
  {
    ghost var o, raw := w.out, RawOf(u);
    ghost var a, b, c, d, e := EncGrant(raw.grant), raw.username, raw.credential, EncVerifier(raw.verifier),
      EncAcls(raw.acls);
    WriteGrant(w,
               Grant(u.tenant, u.role, u.classification, u.sci, Flag(u.canCreate), Flag(u.tokenRequired),
                     Flag(u.tokenPresent)));
    w.PutBytes(Padded(u.username));
    w.PutBytes(Padded(u.credential));
    WriteVerifier(w, u.verifier);
    Regroup(o + a + b, c, d);
    Regroup(o + a, b, c + d);
    Regroup(o, a, b + (c + d));
    WriteList(w, u.acls);
    Regroup(o, EncFixed(raw), EncList(raw.acls));
  }

  method WriteList(w: Writer, acls: seq<Acl>)
    requires w.Valid() && |acls| <= ACL_MAX
    modifies w, w.data
    ensures w.Valid() && w.valid == (old(w.valid) && |old(w.out)| + |EncList(acls)| <= w.length)
    ensures w.valid ==> w.out == old(w.out) + EncList(acls)
  {
    ghost var o := w.out;
    w.PutBytes([|acls|]);
    WriteAcls(w, acls);
    Regroup(o, [|acls|], EncAcls(acls));
  }

  /** `qihse_principal_record_encode`. It fails exactly for an invalid record or a buffer too
      short, and a short buffer is left cleared. */
  method EncodeRecord(r: Record, out: array<u8>) returns (ok: bool, length: nat)
    modifies out
    ensures ok <==> ValidRecord(r) && |Encode(r)| <= out.Length
    ensures ok ==> length == |Encode(r)| && out[..length] == Encode(r)
    ensures !ok ==> length == 0
    ensures !ok && ValidRecord(r) ==> forall i :: 0 <= i < out.Length && i < RECORD_MAX ==> out[i] == 0
  {
    length := 0;
    var valid := ValidateRecord(r);
    if !valid { return false, 0; }
    var cap := if out.Length < RECORD_MAX then out.Length else RECORD_MAX;
    var w := new Writer(out, cap);
    WriteTag(w, TagOf(r));
    WriteStamp(w, StampOf(r));
    Regroup([], EncTag(TagOf(r)), EncStamp(StampOf(r)));
    if r.body.Put? {
      WriteRaw(w, r.body.principal);
    }
    ghost var head := EncTag(TagOf(r)) + EncStamp(StampOf(r));
    Regroup(EncTag(TagOf(r)), EncStamp(StampOf(r)), EncBody(r.body));
    assert head + [] == head;
    assert [] + head == head;
    if !w.valid {
      forall i | 0 <= i < cap { out[i] := 0; }
      return false, 0;
    }
    return true, w.position;
  }

  // ---------------------------------------------------------------- decoder

  /** The bytes hold a whole user part, its own entry count included. */
  predicate RawFits(s: Bytes) {
    |s| >= 214 && var n: nat := s[213]; n <= ACL_MAX && |s| >= 214 + 13 * n
  }

  method ReadFixed(r: Reader) returns (w: Raw)
    requires r.position <= |r.data|
    modifies r
    ensures r.position <= |r.data| && r.valid == (old(r.valid) && 213 <= |old(r.Rest())|)
    ensures r.valid ==> EncFixed(w) == old(r.Rest())[..213] && r.Rest() == old(r.Rest())[213..]
  {
    ghost var s := r.Rest();
    var grant := ReadGrant(r);
    var username := r.GetBytes(64);
    var credential := r.GetBytes(64);
    var verifier := ReadVerifier(r);
    w := Raw(grant, username, credential, verifier, []);
    if r.valid {
      Window(s, 0, 13);
      Window(s, 13, 64);
      Window(s, 77, 64);
      Window(s, 141, 72);
      Join(s, 77, 141, 213);
      Join(s, 13, 77, 213);
      Join(s, 0, 13, 213);
    }
  }

  method ReadRaw(r: Reader) returns (w: Raw)
    requires r.position <= |r.data|
    modifies r
    ensures r.position <= |r.data| && r.valid == (old(r.valid) && RawFits(old(r.Rest())))
    ensures r.valid ==> |w.acls| <= ACL_MAX && old(r.Rest()) == EncRaw(w) + r.Rest()
  {
    ghost var s := r.Rest();
    w := ReadFixed(r);
    var count := r.GetBytes(1);
    if r.valid { assert count[0] == s[213]; }
    if count[0] > ACL_MAX { r.valid := false; }
    var acls := ReadAcls(r, count[0]);
    w := w.(acls := acls);
    if r.valid {
      assert s[213..][1..] == s[214..];
      SliceUp(s, 213, 214, 214 + 13 * |acls|);
    }
  }

  lemma SliceUp(s: Bytes, i: nat, j: nat, k: nat)
    requires i <= j <= k <= |s|
    ensures s == s[..i] + (s[i..][..j - i] + s[j..][..k - j]) + s[k..]
    ensures s[j..][k - j..] == s[k..]
  {}

  /** The parts of a record's bytes. */
  lemma Parts(q: Record)
    requires ValidRecord(q)
    ensures var data := Encode(q);
            && |data| >= 56 && data[..24] == EncTag(TagOf(q)) && data[24..][..32] == EncStamp(StampOf(q))
            && data[24..][32..] == EncBody(q.body)
            && (q.body.Put? ==> RawFits(EncBody(q.body)))
  {
    Peel(EncTag(TagOf(q)), EncStamp(StampOf(q)) + EncBody(q.body));
    Peel(EncStamp(StampOf(q)), EncBody(q.body));
    if q.body.Put? {
      var raw := RawOf(q.body.principal);
      Peel(EncFixed(raw), EncList(raw.acls));
      assert EncRaw(raw)[213] == EncList(raw.acls)[0];
    }
  }

  function Assembled(tag: Tag, stamp: Stamp, raw: Raw): Record {
    Record(tag.request, stamp.expected, stamp.actor, stamp.actorGen, stamp.principalGen, stamp.target,
           if tag.kind == KIND_PUT then Put(UserOf(raw, stamp.target)) else Delete)
  }

  predicate FlagsClear(g: Grant) { g.create <= 1 && g.required <= 1 && g.present <= 1 }

  /** What the decoder sees when the bytes are those of a valid canonical record. */
  lemma SeesRecord(q: Record, tag: Tag, stamp: Stamp, raw: Raw, rest: Bytes)
    requires ValidRecord(q) && Canonical(q)
    requires EncTag(tag) == Encode(q)[..24] && EncStamp(stamp) == Encode(q)[24..][..32]
    requires tag.kind == KIND_PUT ==> |raw.acls| <= ACL_MAX && Encode(q)[24..][32..] == EncRaw(raw) + rest
    requires tag.kind != KIND_PUT ==> Encode(q)[24..][32..] == rest
    ensures tag == TagOf(q) && rest == [] && Assembled(tag, stamp, raw) == q
    ensures tag.kind == KIND_PUT ==> FlagsClear(raw.grant)
  {
    Parts(q);
    TagInjective(tag, TagOf(q));
    StampInjective(stamp, StampOf(q));
    if q.body.Put? {
      var own := RawOf(q.body.principal);
      assert EncRaw(own)[213] == EncRaw(raw)[213] == |raw.acls| by {
        Peel(EncFixed(own), EncList(own.acls));
        Peel(EncFixed(raw), EncList(raw.acls));
        assert EncRaw(own)[213] == (EncRaw(raw) + rest)[213];
      }
      assert EncRaw(own)[213] == EncList(own.acls)[0] by { Peel(EncFixed(own), EncList(own.acls)); }
      assert |raw.acls| == |own.acls|;
      SplitEq(EncRaw(own), [], EncRaw(raw), rest);
      RawInjective(raw, own);
      UserOfRaw(q.body.principal, q.target);
    }
  }

  /** The checked parts encode back to the bytes they came from. */
  lemma EncodesBack(tag: Tag, stamp: Stamp, raw: Raw)
    requires tag.magic == QPR1 && tag.version == 1 && tag.reserved == 0
             && (tag.kind == KIND_PUT || tag.kind == KIND_DELETE)
    requires tag.kind == KIND_PUT ==>
      |raw.acls| <= ACL_MAX && FlagsClear(raw.grant) && ZeroPadded(raw.username) && ZeroPadded(raw.credential)
    ensures Encode(Assembled(tag, stamp, raw)) ==
            EncTag(tag) + (EncStamp(stamp) + (if tag.kind == KIND_PUT then EncRaw(raw) else []))
  {
    var r := Assembled(tag, stamp, raw);
    assert TagOf(r) == tag && StampOf(r) == stamp;
    if tag.kind == KIND_PUT {
      PaddedFixed(raw.username);
      PaddedFixed(raw.credential);
      assert RawOf(r.body.principal) == raw;
    }
  }

  method PaddingClear(b: Body) returns (ok: bool)
    requires b.Put? ==> FieldsValid(b.principal, false)
    ensures ok <==> (b.Put? ==> ZeroPadded(b.principal.username) && ZeroPadded(b.principal.credential))
  {
    if b.Delete? { return true; }
    var name := BoundedString(b.principal.username, true, true);
    var credential := BoundedString(b.principal.credential, false, true);
    return name && credential;
  }

  /** What the reading half of the decoder has seen: `good` if no read came up short, `rest`
      what is left then. */
  ghost predicate Parsed(data: Bytes, tag: Tag, stamp: Stamp, raw: Raw, good: bool, rest: Bytes) {
    if |data| < 56 then !good
    else
      var body := data[24..][32..];
      && data[..24] == EncTag(tag) && data[24..][..32] == EncStamp(stamp)
      && (tag.kind != KIND_PUT ==> good && rest == body)
      && (tag.kind == KIND_PUT ==> good == RawFits(body))
      && (tag.kind == KIND_PUT && good ==> |raw.acls| <= ACL_MAX && body == EncRaw(raw) + rest)
  }

  lemma ParsedSound(data: Bytes, tag: Tag, stamp: Stamp, raw: Raw)
    requires Parsed(data, tag, stamp, raw, true, [])
    ensures tag.kind == KIND_PUT ==> |raw.acls| <= ACL_MAX
    ensures data == EncTag(tag) + (EncStamp(stamp) + (if tag.kind == KIND_PUT then EncRaw(raw) else []))
  {
    assert data == data[..24] + (data[24..][..32] + data[24..][32..]);
    if tag.kind == KIND_PUT { assert EncRaw(raw) + [] == EncRaw(raw); }
  }

  lemma ParsedComplete(q: Record, tag: Tag, stamp: Stamp, raw: Raw, good: bool, rest: Bytes)
    requires ValidRecord(q) && Canonical(q) && Parsed(Encode(q), tag, stamp, raw, good, rest)
    ensures good && rest == [] && tag == TagOf(q) && Assembled(tag, stamp, raw) == q
    ensures tag.kind == KIND_PUT ==> FlagsClear(raw.grant)
  {
    Parts(q);
    TagInjective(tag, TagOf(q));
    SeesRecord(q, tag, stamp, raw, rest);
  }

  const NO_USER := Raw(Grant(0, 0, 0, 0, 0, 0, 0), seq(64, _ => 0), seq(64, _ => 0),
                       Verifier(0, 0, 0, seq(16, _ => 0), seq(48, _ => 0)), [])

  method ReadParts(data: Bytes) returns (tag: Tag, stamp: Stamp, raw: Raw, good: bool, end: bool, ghost rest: Bytes)
    ensures Parsed(data, tag, stamp, raw, good, rest)
    ensures good ==> end == (rest == [])
  {
    var r := new Reader(data);
    assert r.Rest() == data;
    tag := ReadTag(r);
    stamp := ReadStamp(r);
    raw := NO_USER;
    if tag.kind == KIND_PUT {
      raw := ReadRaw(r);
    }
    good, end, rest := r.valid, r.position == |data|, r.Rest();
  }

  /** The record some bytes stand for. */
  ghost function Decoded(data: Bytes): (r: Option<Record>)
    ensures r.Some? ==> ValidRecord(r.value) && Canonical(r.value) && Encode(r.value) == data
  {
    if exists q :: ValidRecord(q) && Canonical(q) && Encode(q) == data
    then var q :| ValidRecord(q) && Canonical(q) && Encode(q) == data; Some(q)
    else None
  }

  /** `qihse_principal_record_decode`: accepts exactly the encodings of valid canonical
      records, and answers the one record with those bytes. */
  method DecodeRecord(data: Bytes) returns (r: Option<Record>)
    ensures r.Some? ==> ValidRecord(r.value) && Canonical(r.value) && Encode(r.value) == data
    ensures r.None? ==> forall q :: ValidRecord(q) && Canonical(q) ==> Encode(q) != data
    ensures r == Decoded(data)
  {
    if |data| > RECORD_MAX { return None; }
    var tag, stamp, raw, good, end; ghost var rest;
    tag, stamp, raw, good, end, rest := ReadParts(data);
    var record := Assembled(tag, stamp, raw);
    forall q | ValidRecord(q) && Canonical(q) && Encode(q) == data
      ensures good && end && tag == TagOf(q) && record == q && (tag.kind == KIND_PUT ==> FlagsClear(raw.grant))
    {
      ParsedComplete(q, tag, stamp, raw, good, rest);
    }
    if !good || !end || tag.magic != QPR1 || tag.version != 1 || tag.reserved != 0
       || (tag.kind != KIND_PUT && tag.kind != KIND_DELETE)
       || (tag.kind == KIND_PUT && !FlagsClear(raw.grant)) { return None; }
    ParsedSound(data, tag, stamp, raw);
    var valid := ValidateRecord(record);
    if !valid { return None; }
    var clear := PaddingClear(record.body);
    if !clear { return None; }
    EncodesBack(tag, stamp, raw);
    EncodeInjective(record, Decoded(data).value);
    return Some(record);
  }

  /** Decoding what was encoded gives the record back, up to bytes behind terminators. */
  lemma RoundTrip(r: Record)
    requires ValidRecord(r)
    ensures Decoded(Encode(r)) == Some(Canon(r))
  {
    CanonEncodes(r);
    EncodeInjective(Decoded(Encode(r)).value, Canon(r));
  }

  // ---------------------------------------------------------------- authority

  predicate SubsetBits(a: u16, b: u16) { (a as bv16) & (b as bv16) == a as bv16 }

  /** `qihse_principal_record_authorize_transition` */
  predicate Authorized(r: Record, registryGen: nat, actor: User, actorGen: nat, target: Option<User>, targetGen: nat) {
    && ValidRecord(r) && actor.role <= ROLE_GUEST && actor.tenant != TENANT_INVALID
    && r.expected == registryGen && registryGen != U64_MAX
    && r.actor == actor.id && r.actorGen == actorGen && actorGen != 0
    && (target.Some? ==> target.value.id == r.target && targetGen != 0)
    && (target.None? ==> targetGen == 0)
    && targetGen != U64_MAX && r.principalGen == targetGen + 1
    && match r.body
       case Delete => target.Some? && actor.role == ROLE_OPERATOR && MayReach(actor, target.value.tenant)
       case Put(u) =>
         && (if target.Some? then MayModify(actor, target.value, u) else MayCreate(actor, u))
         && u.role >= actor.role && u.classification <= actor.classification && SubsetBits(u.sci, actor.sci)
         && (u.canCreate ==> actor.role == ROLE_OPERATOR || actor.canCreate)
         && (actor.tokenRequired ==> u.tokenRequired)
  }

  /** A system operator reaches every tenant, any other only its own, never the system's. */
  predicate MayReach(actor: User, tenant: u32) {
    actor.tenant == TENANT_SYSTEM || (actor.tenant == tenant && tenant != TENANT_SYSTEM)
  }

  predicate MayModify(actor: User, target: User, u: User) {
    actor.role == ROLE_OPERATOR && target.role == u.role && target.tenant == u.tenant && MayReach(actor, target.tenant)
  }

  predicate BareGuest(u: User) {
    u.role == ROLE_GUEST && u.classification == 0 && u.sci == 0 && !u.canCreate && u.acls == []
  }

  predicate MayCreate(actor: User, u: User) {
    && (actor.role == ROLE_OPERATOR || actor.canCreate)
    && (actor.tenant == TENANT_SYSTEM || u.tenant == actor.tenant)
    && (actor.role == ROLE_OPERATOR || BareGuest(u))
  }

  /** A bare guest is never authorised to do anything. */
  lemma BareGuestPowerless(r: Record, registryGen: nat, actor: User, actorGen: nat, target: Option<User>,
                           targetGen: nat)
    requires BareGuest(actor)
    ensures !Authorized(r, registryGen, actor, actorGen, target, targetGen)
  {}
}
