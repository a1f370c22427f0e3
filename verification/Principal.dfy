/** Principals and the checks on their durable fields (core/qihse_principal_record.c). */
module Principal {
  import opened Prelude

  const ROLE_OPERATOR: u16 := 0
  const ROLE_GUEST: u16 := 2
  const TENANT_SYSTEM: u32 := 0
  const TENANT_INVALID: u32 := 0xFFFF_FFFF
  const MAX_IDS: nat := 65536
  const ACL_MAX: nat := 64
  const ACL_FLAGS: nat := 7
  const PW_VERSION: u16 := 1
  const PW_ALGORITHM: u16 := 1
  const PW_MIN_ITERATIONS: nat := 600000
  const INT_MAX: nat := 0x7FFF_FFFF

  type Text = s: Bytes | |s| == 64 witness seq(64, _ => 0)
  type Salt = s: Bytes | |s| == 16 witness seq(16, _ => 0)
  type Hash = s: Bytes | |s| == 48 witness seq(48, _ => 0)

  datatype Verifier = Verifier(version: u16, algorithm: u16, iterations: u32, salt: Salt, hash: Hash)

  datatype Acl = Acl(ns: u32, resource: u64, flags: u8)

  /** `qihse_user_t`; `acls` are the entries in use. */
  datatype User = User(
    id: u32, role: u16, classification: u16, sci: u16, tenant: u32,
    username: Text, canCreate: bool, tokenPresent: bool, tokenRequired: bool, credential: Text,
    verifier: Verifier, passwordSet: bool, acls: seq<Acl>)

  // ---------------------------------------------------------------- C strings

  /** Position of the terminator, or the length if there is none. */
  function Terminator(s: Bytes): (n: nat)
    ensures n <= |s|
    ensures forall i :: 0 <= i < n ==> s[i] != 0
    ensures n < |s| ==> s[n] == 0
  {
    if s == [] || s[0] == 0 then 0 else 1 + Terminator(s[1..])
  }

  /** The string a buffer holds. */
  function CStr(s: Bytes): Bytes { s[..Terminator(s)] }

  predicate Terminated(s: Bytes) { Terminator(s) < |s| }

  predicate ZeroPadded(s: Bytes) {
    forall i :: Terminator(s) <= i < |s| ==> s[i] == 0
  }

  /** The buffer with everything after the terminator cleared. */
  function Padded(s: Text): (p: Text) {
    CStr(s) + seq(64 - Terminator(s), _ => 0)
  }

  lemma TerminatorUnique(s: Bytes, n: nat)
    requires n <= |s| && (forall i :: 0 <= i < n ==> s[i] != 0) && (n < |s| ==> s[n] == 0)
    ensures Terminator(s) == n
  {}

  lemma PaddedIsCanonical(s: Text)
    requires Terminated(s)
    ensures Terminated(Padded(s)) && ZeroPadded(Padded(s)) && CStr(Padded(s)) == CStr(s)
    ensures Padded(Padded(s)) == Padded(s)
  {
    TerminatorUnique(Padded(s), Terminator(s));
  }

  lemma PaddedFixed(s: Text)
    requires ZeroPadded(s)
    ensures Padded(s) == s
  {}

  /** `bounded_string` */
  method BoundedString(s: Bytes, nonempty: bool, zeroPadding: bool) returns (ok: bool)
    ensures ok <==> Terminated(s) && (nonempty ==> Terminator(s) > 0) && (zeroPadding ==> ZeroPadded(s))
  {
    var end := 0;
    while end < |s| && s[end] != 0
      invariant 0 <= end <= |s| && forall i :: 0 <= i < end ==> s[i] != 0
    {
      end := end + 1;
    }
    TerminatorUnique(s, end);
    if end == |s| || (nonempty && end == 0) { return false; }
    if zeroPadding {
      var i := end + 1;
      while i < |s|
        invariant end < i <= |s| && forall k :: end <= k < i ==> s[k] == 0
      {
        if s[i] != 0 { return false; }
        i := i + 1;
      }
    }
    return true;
  }

  /** A terminated buffer is one with a zero in it; it is not empty if it does not begin with one. */
  lemma Spelled(s: Text)
    ensures Terminated(s) <==> exists k :: 0 <= k < 64 && s[k] == 0
    ensures Terminated(s) && Terminator(s) > 0 <==> exists k :: 0 < k < 64 && s[k] == 0 && s[0] != 0
  {
    if Terminated(s) { assert s[Terminator(s)] == 0; }
  }

  // ---------------------------------------------------------------- field validity

  predicate FullClearance(u: User) { u.classification == U16_MAX && u.sci == U16_MAX }

  predicate AclsValid(acls: seq<Acl>) {
    && (forall i :: 0 <= i < |acls| ==> 1 <= acls[i].flags <= ACL_FLAGS)
    && (forall i, j :: 0 <= j < i < |acls| ==> acls[j].ns != acls[i].ns || acls[j].resource != acls[i].resource)
  }

  predicate VerifierValid(v: Verifier) {
    v.version == PW_VERSION && v.algorithm == PW_ALGORITHM && PW_MIN_ITERATIONS <= v.iterations <= INT_MAX
  }

  /** What every stored principal satisfies. */
  predicate FieldsValid(u: User, allowRoot: bool) {
    && u.id < MAX_IDS
    && (u.id == 0 ==> allowRoot && u.role == ROLE_OPERATOR && u.tenant == TENANT_SYSTEM)
    && (u.role == ROLE_OPERATOR ==> FullClearance(u))
    && u.tenant != TENANT_INVALID && u.role <= ROLE_GUEST
    && Terminated(u.username) && Terminator(u.username) > 0 && Terminated(u.credential)
    && u.passwordSet && !u.tokenPresent && VerifierValid(u.verifier)
    && |u.acls| <= ACL_MAX && AclsValid(u.acls)
  }

  /** The pairwise check of the entries. */
  method ValidateAcls(acls: seq<Acl>) returns (ok: bool)
    ensures ok == AclsValid(acls)
  {
    var i := 0;
    while i < |acls|
      invariant 0 <= i <= |acls| && AclsValid(acls[..i])
    {
      if acls[i].flags == 0 || acls[i].flags > ACL_FLAGS { return false; }
      var j := 0;
      while j < i
        invariant 0 <= j <= i
        invariant forall k :: 0 <= k < j ==> acls[k].ns != acls[i].ns || acls[k].resource != acls[i].resource
      {
        if acls[j].ns == acls[i].ns && acls[j].resource == acls[i].resource { return false; }
        j := j + 1;
      }
      i := i + 1;
    }
    assert acls[..i] == acls;
    return true;
  }

  /** `qihse_principal_fields_valid` */
  method ValidateFields(u: User, allowRoot: bool) returns (ok: bool)
    ensures ok == FieldsValid(u, allowRoot)
    ensures ok <==>
      && u.id <= 65535 && u.role <= 2 && u.tenant != 0xFFFF_FFFF
      && (u.id == 0 ==> allowRoot && u.role == 0 && u.tenant == 0)
      && (u.role == 0 ==> u.classification == 65535 && u.sci == 65535)
      && (exists k :: 0 < k < 64 && u.username[k] == 0 && u.username[0] != 0)
      && (exists k :: 0 <= k < 64 && u.credential[k] == 0)
      && u.passwordSet && !u.tokenPresent && u.verifier.version == 1 && u.verifier.algorithm == 1
      && 600000 <= u.verifier.iterations <= 0x7FFF_FFFF && |u.acls| <= 64
      && (forall i :: 0 <= i < |u.acls| ==> 1 <= u.acls[i].flags <= 7)
      && (forall i, j :: 0 <= i < |u.acls| && 0 <= j < |u.acls| && i != j ==>
            u.acls[i].ns != u.acls[j].ns || u.acls[i].resource != u.acls[j].resource)
  {
    Spelled(u.username);
    Spelled(u.credential);
    if u.id >= MAX_IDS
       || (u.id == 0 && (!allowRoot || u.role != ROLE_OPERATOR || u.tenant != TENANT_SYSTEM
                         || u.classification != U16_MAX || u.sci != U16_MAX))
       || u.tenant == TENANT_INVALID || u.role > ROLE_GUEST { return false; }
    var name := BoundedString(u.username, true, false);
    if !name { return false; }
    var credential := BoundedString(u.credential, false, false);
    if !credential { return false; }
    if |u.acls| > ACL_MAX || !u.passwordSet || u.verifier.version != PW_VERSION
       || u.verifier.algorithm != PW_ALGORITHM || u.verifier.iterations < PW_MIN_ITERATIONS
       || u.verifier.iterations > INT_MAX || u.tokenPresent { return false; }
    if u.role == ROLE_OPERATOR && (u.classification != U16_MAX || u.sci != U16_MAX) { return false; }
    ok := ValidateAcls(u.acls);
  }
}
