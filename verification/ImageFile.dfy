/** The whole authority image as bytes: encoder, decoder and why they are inverse
    (core/qihse_auth_archive.c). */
module ImageFile {
  import opened Prelude
  import opened ByteCodec
  import opened Principal
  import opened AuthImage
  import opened ImageBlocks
  import opened ImageCodec
  import opened ImageRows

  const ARCHIVE_MAX: nat := 160 * 1024 * 1024
  const IMAGE_MIN: nat := 141
  const PURPOSE_DURABLE: u32 := 1
  const PURPOSE_TRANSFER: u32 := 2
  const QAIMAGE1: Bytes8 := [0x51, 0x41, 0x49, 0x4D, 0x41, 0x47, 0x45, 0x31]
  function Zero48(): (s: Bytes48)
    ensures forall i :: 0 <= i < 48 ==> s[i] == 0
  {
    seq(48, _ => 0)
  }

  datatype Header = Header(magic: Magic, position: Position, root: RootPart, counts: Counts)

  function EncHeader(h: Header): (s: Bytes)
    ensures |s| == 141
  {
    EncMagic(h.magic) + (EncPosition(h.position) + (EncRootPart(h.root) + EncCounts(h.counts)))
  }

  lemma HeaderEq(a: Header, s: Bytes, b: Header, t: Bytes)
    requires EncHeader(a) + s == EncHeader(b) + t
    ensures a == b && s == t
  {
    SplitEq(EncHeader(a), s, EncHeader(b), t);
    MagicEq(a.magic, EncPosition(a.position) + (EncRootPart(a.root) + EncCounts(a.counts)),
            b.magic, EncPosition(b.position) + (EncRootPart(b.root) + EncCounts(b.counts)));
    PositionEq(a.position, EncRootPart(a.root) + EncCounts(a.counts), b.position,
               EncRootPart(b.root) + EncCounts(b.counts));
    RootPartEq(a.root, EncCounts(a.counts), b.root, EncCounts(b.counts));
    CountsEq(a.counts, [], b.counts, []);
  }

  method ReadHeader(r: Reader) returns (h: Header)
    requires r.position <= |r.data|
    modifies r
    ensures r.position <= |r.data| && r.valid == (old(r.valid) && 141 <= |old(r.Rest())|)
    ensures r.valid ==> old(r.Rest()) == EncHeader(h) + r.Rest()
  {
    ghost var s := r.Rest();
    var magic := ReadMagic(r);
    var position := ReadPosition(r);
    var root := ReadRootPart(r);
    var counts := ReadCounts(r);
    h := Header(magic, position, root, counts);
    if r.valid {
      Window(s, 0, 16);
      Window(s, 16, 48);
      Window(s, 64, 68);
      Window(s, 132, 9);
      Join(s, 64, 132, 141);
      Join(s, 16, 64, 141);
      Join(s, 0, 16, 141);
      assert s == s[..141] + s[141..];
    }
  }

  method WriteHeader(w: ImageWriter, h: Header)
    requires w.Valid()
    modifies w`used, w`good, w`out, w.data
    ensures w.Valid() && w.good == (old(w.good) && |old(w.out)| + 141 <= w.capacity)
    ensures w.good ==> w.out == old(w.out) + EncHeader(h)
  {
    ghost var o, a, b, c, d := w.out, EncMagic(h.magic), EncPosition(h.position), EncRootPart(h.root),
      EncCounts(h.counts);
    WriteMagic(w, h.magic);
    WritePosition(w, h.position);
    WriteRootPart(w, h.root);
    WriteCounts(w, h.counts);
    Regroup(o + a + b, c, d);
    Regroup(o + a, b, c + d);
    Regroup(o, a, b + (c + d));
  }

  // ---------------------------------------------------------------- images

  function HeaderOf(m: Image, local: bool): Header
    requires |m.rows| <= MAX_PRINCIPALS && |m.retries| <= RETRY_MAX
  {
    Header(Magic(QAIMAGE1, 1, if local then PURPOSE_DURABLE else PURPOSE_TRANSFER), m.position,
           RootPart(if local then m.binding else Zero48(), m.rootGeneration, m.rootFailed, m.rootLockout),
           Counts(|m.rows|, |m.retries|, if local then 1 else 0))
  }

  /** Small enough to be written at all. */
  predicate Encodable(m: Image, local: bool) {
    && |m.rows| <= MAX_PRINCIPALS && |m.retries| <= RETRY_MAX && RowsFit(m.rows)
    && local == m.root.Some? && (local ==> |m.root.value.acls| <= ACL_MAX)
  }

  predicate PartsFit(root: Option<User>, rows: seq<Row>) {
    RowsFit(rows) && (root.Some? ==> |root.value.acls| <= ACL_MAX)
  }

  predicate PartsClean(root: Option<User>, rows: seq<Row>) {
    RowsClean(rows) && (root.Some? ==> Clean(root.value, true))
  }

  function EncParts(root: Option<User>, rows: seq<Row>, retries: seq<Retry>): Bytes
    requires PartsFit(root, rows)
  {
    EncTail(root) + EncLists(rows, retries)
  }

  function EncLists(rows: seq<Row>, retries: seq<Retry>): Bytes
    requires RowsFit(rows)
  {
    EncRows(rows) + EncRetries(retries)
  }

  function EncBody(m: Image, local: bool): Bytes
    requires Encodable(m, local)
  {
    EncParts(m.root, m.rows, m.retries)
  }

  function EncImage(m: Image, local: bool): (s: Bytes)
    requires Encodable(m, local)
    ensures |s| <= ARCHIVE_MAX
  {
    EncHeader(HeaderOf(m, local)) + EncBody(m, local)
  }

  /** The bytes of an image small enough to be written. */
  function BytesOf(m: Image, local: bool): Bytes {
    if Encodable(m, local) then EncImage(m, local) else []
  }

  /** A valid image in its one written form: rows by id, nothing behind terminators, and no
      bootstrap binding outside the local snapshot. */
  predicate Canonical(m: Image, local: bool) {
    && ValidImage(m, local) && Ascending(m.rows) && RowsClean(m.rows)
    && (local ==> Clean(m.root.value, true)) && (local || m.binding == Zero48())
  }

  lemma PartsEq(root: Option<User>, rows: seq<Row>, retries: seq<Retry>, root': Option<User>, rows': seq<Row>,
                retries': seq<Retry>)
    requires PartsClean(root, rows) && PartsClean(root', rows') && root.Some? == root'.Some?
    requires |rows| == |rows'| && |retries| == |retries'|
    requires EncParts(root, rows, retries) == EncParts(root', rows', retries')
    ensures root == root' && rows == rows' && retries == retries'
  {
    var x, y := EncRows(rows) + EncRetries(retries), EncRows(rows') + EncRetries(retries');
    if root.Some? {
      PrincipalEq(root.value, x, root'.value, y, true);
    } else {
      assert [] + x == x && [] + y == y;
    }
    RowsEq(rows, EncRetries(retries), rows', EncRetries(retries'));
    RetriesInjective(retries, retries');
  }

  /** What the bytes alone determine. */
  predicate Writable(m: Image, local: bool) {
    Encodable(m, local) && PartsClean(m.root, m.rows) && (local || m.binding == Zero48())
  }

  lemma SameHeader(a: Image, b: Image, local: bool)
    requires Writable(a, local) && Writable(b, local) && HeaderOf(a, local) == HeaderOf(b, local)
    ensures |a.rows| == |b.rows| && |a.retries| == |b.retries|
            && b.(root := a.root, rows := a.rows, retries := a.retries) == a
  {}

  lemma WritableInjective(a: Image, b: Image, local: bool)
    requires Writable(a, local) && Writable(b, local) && EncImage(a, local) == EncImage(b, local)
    ensures a == b
  {
    HeaderEq(HeaderOf(a, local), EncBody(a, local), HeaderOf(b, local), EncBody(b, local));
    SameHeader(a, b, local);
    PartsEq(a.root, a.rows, a.retries, b.root, b.rows, b.retries);
  }

  lemma CanonicalWritable(m: Image, local: bool)
    requires Canonical(m, local)
    ensures Writable(m, local)
  {}

  /** Different canonical images have different bytes. */
  lemma ImageInjective(a: Image, b: Image, local: bool)
    requires Canonical(a, local) && Canonical(b, local) && BytesOf(a, local) == BytesOf(b, local)
    ensures a == b
  {
    CanonicalWritable(a, local);
    CanonicalWritable(b, local);
    WritableInjective(a, b, local);
  }

  // ---------------------------------------------------------------- the written form of any image

  function CleanUser(u: User): User { u.(username := Padded(u.username), credential := Padded(u.credential)) }

  function CleanRow(x: Row): Row {
    if x.principal.Some? then x.(principal := Some(CleanUser(x.principal.value))) else x
  }

  function CleanRows(xs: seq<Row>): (ys: seq<Row>)
    ensures |ys| == |xs| && forall i :: 0 <= i < |xs| ==> ys[i] == CleanRow(xs[i])
  {
    if xs == [] then [] else [CleanRow(xs[0])] + CleanRows(xs[1..])
  }

  /** Same authority, written form. */
  function Canon(m: Image, local: bool): Image {
    m.(rows := CleanRows(ById(m.rows)), binding := if local then m.binding else Zero48(),
       root := if m.root.Some? then Some(CleanUser(m.root.value)) else None)
  }

  lemma CleanUserLaws(u: User, root: bool)
    requires FieldsValid(u, root)
    ensures Clean(CleanUser(u), root) && CStr(CleanUser(u).username) == CStr(u.username)
    ensures EncPrincipal(CleanUser(u)) == EncPrincipal(u)
  {
    PaddedIsCanonical(u.username);
    PaddedIsCanonical(u.credential);
  }

  lemma CleanRowLaws(x: Row)
    requires RowValid(x)
    ensures RowValid(CleanRow(x)) && RowClean(CleanRow(x)) && RowFits(x) && EncRow(CleanRow(x)) == EncRow(x)
    ensures x.principal.Some? ==> Name(CleanRow(x)) == Name(x)
  {
    if x.principal.Some? { CleanUserLaws(x.principal.value, false); }
  }

  lemma {:induction false} CleanRowsEncode(xs: seq<Row>)
    requires RowsValid(xs)
    ensures RowsFit(xs) && RowsClean(CleanRows(xs)) && EncRows(CleanRows(xs)) == EncRows(xs)
  {
    forall i | 0 <= i < |xs| ensures RowFits(xs[i]) && RowClean(CleanRows(xs)[i]) { CleanRowLaws(xs[i]); }
    if xs != [] {
      CleanRowLaws(xs[0]);
      CleanRowsEncode(xs[1..]);
      assert CleanRows(xs)[1..] == CleanRows(xs[1..]);
    }
  }

  lemma CleanRowsKeep(xs: seq<Row>)
    requires RowsValid(xs) && DistinctNames(xs)
    ensures RowsValid(CleanRows(xs)) && DistinctNames(CleanRows(xs))
    ensures Ascending(xs) ==> Ascending(CleanRows(xs))
    ensures forall name :: NameUnused(xs, name) ==> NameUnused(CleanRows(xs), name)
  {
    forall i | 0 <= i < |xs|
      ensures RowValid(CleanRow(xs[i])) && (xs[i].principal.Some? ==> Name(CleanRow(xs[i])) == Name(xs[i]))
    {
      CleanRowLaws(xs[i]);
    }
  }

  lemma RowsPermute(a: seq<Row>, b: seq<Row>)
    requires multiset(a) == multiset(b) && RowsValid(a)
    ensures RowsValid(b)
  {
    forall i | 0 <= i < |b| ensures RowValid(b[i]) {
      assert b[i] in multiset(b);
      assert b[i] in a;
    }
  }

  lemma NamesPermute(a: seq<Row>, b: seq<Row>)
    requires multiset(a) == multiset(b) && DistinctIds(a) && DistinctNames(a)
    ensures DistinctNames(b)
  {
    DistinctIdsPermute(a, b);
    forall i, j | 0 <= i < j < |b| && b[i].principal.Some? && b[j].principal.Some? ensures Name(b[i]) != Name(b[j]) {
      assert b[i] in multiset(b) && b[j] in multiset(b);
      assert b[i] in a && b[j] in a;
      var x :| 0 <= x < |a| && a[x] == b[i];
      var y :| 0 <= y < |a| && a[y] == b[j];
      assert x != y;
    }
  }

  lemma AscendingDistinct(xs: seq<Row>)
    requires Ascending(xs)
    ensures DistinctIds(xs)
  {}

  /** The rows of the canonical form. */
  lemma CanonRows(rows: seq<Row>)
    requires RowsValid(rows) && DistinctIds(rows) && DistinctNames(rows)
    ensures var ys := CleanRows(ById(rows));
            && |ys| == |rows| && RowsValid(ys) && Ascending(ys) && DistinctIds(ys) && DistinctNames(ys) && RowsClean(ys)
    ensures forall name :: NameUnused(rows, name) ==> NameUnused(CleanRows(ById(rows)), name)
  {
    var xs := ById(rows);
    SortedIdsAscend(rows);
    RowsPermute(rows, xs);
    NamesPermute(rows, xs);
    CleanRowsKeep(xs);
    CleanRowsEncode(xs);
    SameLength(rows, xs);
    AscendingDistinct(CleanRows(xs));
    forall name | NameUnused(rows, name) ensures NameUnused(CleanRows(xs), name) {
      NameUnusedPermutes(rows, xs, name);
    }
  }

  lemma CanonHead(m: Image, local: bool)
    requires HeadValid(m, local) && |Canon(m, local).rows| == |m.rows|
    ensures HeadValid(Canon(m, local), local) && (local ==> Clean(Canon(m, local).root.value, true))
    ensures local ==> CStr(Canon(m, local).root.value.username) == CStr(m.root.value.username)
  {
    if local { CleanUserLaws(m.root.value, true); }
  }

  /** Every valid image has a canonical form. */
  lemma CanonLaws(m: Image, local: bool)
    requires ValidImage(m, local)
    ensures Canonical(Canon(m, local), local)
  {
    CanonRows(m.rows);
    CanonHead(m, local);
  }

  // ---------------------------------------------------------------- encoder

  /** `image_write` on rows already in order. */
  method WriteImage(w: ImageWriter, m: Image, rows: seq<Row>, local: bool)
    requires w.Valid() && Encodable(m.(rows := rows), local) && |rows| == |m.rows|
    requires forall i :: 0 <= i < |rows| ==> Printable(rows[i])
    requires local ==> Terminated(m.root.value.username) && Terminated(m.root.value.credential)
    modifies w`used, w`good, w`out, w.data
    ensures w.Valid() && w.good == (old(w.good) && |old(w.out)| + |EncImage(m.(rows := rows), local)| <= w.capacity)
    ensures w.good ==> w.out == old(w.out) + EncImage(m.(rows := rows), local)
  {
    ghost var o, a, b, c, d := w.out, EncHeader(HeaderOf(m.(rows := rows), local)), EncTail(m.root), EncRows(rows),
      EncRetries(m.retries);
    WriteHeader(w, HeaderOf(m.(rows := rows), local));
    if local {
      WritePrincipal(w, m.root.value);
    } else {
      assert o + a + [] == o + a;
    }
    WriteRows(w, rows);
    WriteRetries(w, m.retries);
    Regroup(o + a + b, c, d);
    Regroup(o + a, b, c + d);
    Regroup(o, a, b + (c + d));
  }

  lemma SameRows(m: Image, rows: seq<Row>, local: bool)
    requires ValidImage(m, local) && Ascending(rows) && multiset(rows) == multiset(m.rows)
    ensures |rows| == |m.rows| && rows == ById(m.rows) && RowsValid(rows)
  {
    SortedIdsAscend(m.rows);
    AscendingUnique(rows, ById(m.rows));
    RowsPermute(m.rows, rows);
    SameLength(m.rows, rows);
  }

  lemma RowsPrintable(rows: seq<Row>)
    requires RowsValid(rows)
    ensures RowsFit(rows) && forall i :: 0 <= i < |rows| ==> Printable(rows[i])
  {
    forall i | 0 <= i < |rows| ensures Printable(rows[i]) && RowFits(rows[i]) { assert RowValid(rows[i]); }
  }

  /** Cleaning root and rows changes no byte. */
  lemma CleanParts(root: Option<User>, rows: seq<Row>, retries: seq<Retry>)
    requires RowsValid(rows) && (root.Some? ==> FieldsValid(root.value, true))
    ensures var root' := if root.Some? then Some(CleanUser(root.value)) else None;
            PartsFit(root, rows) && PartsFit(root', CleanRows(rows))
            && EncParts(root, rows, retries) == EncParts(root', CleanRows(rows), retries)
  {
    CleanRowsEncode(rows);
    if root.Some? { CleanUserLaws(root.value, true); }
  }

  /** Writing the rows in order gives the canonical bytes. */
  lemma OrderedEncode(m: Image, rows: seq<Row>, local: bool)
    requires HeadValid(m, local) && |rows| == |m.rows| && rows == ById(m.rows) && RowsValid(rows)
    ensures Encodable(m.(rows := rows), local) && Encodable(Canon(m, local), local)
    ensures EncImage(m.(rows := rows), local) == EncImage(Canon(m, local), local)
  {
    RowsPrintable(rows);
    CleanParts(m.root, rows, m.retries);
    assert HeaderOf(m.(rows := rows), local) == HeaderOf(Canon(m, local), local);
  }

  /** The measuring pass and the filling pass. */
  method TwoPasses(m: Image, rows: seq<Row>, local: bool) returns (bytes: array<u8>)
    requires Encodable(m.(rows := rows), local) && |rows| == |m.rows|
    requires forall i :: 0 <= i < |rows| ==> Printable(rows[i])
    requires local ==> Terminated(m.root.value.username) && Terminated(m.root.value.credential)
    ensures fresh(bytes) && bytes[..] == EncImage(m.(rows := rows), local)
  {
    ghost var s := EncImage(m.(rows := rows), local);
    var w := new ImageWriter(ARCHIVE_MAX);
    WriteImage(w, m, rows, local);
    assert [] + s == s;
    bytes := new u8[w.used];
    w.Fill(bytes);
    WriteImage(w, m, rows, local);
    assert bytes[..] == bytes[..w.used];
  }

  /** `image_encode_purpose`: measure, allocate exactly that much, fill. The measured size is
      what the filling pass writes, and no valid image is too large. */
  method EncodeImage(context: bool, m: Image, local: bool, memory: bool) returns (status: Status, out: array?<u8>)
    ensures status == Ok <==> context && memory && ValidImage(m, local)
    ensures status == Invalid ==> !ValidImage(m, local)
    ensures status == Denied <==> !context
    ensures status == Ok ==> out != null && fresh(out) && out[..] == BytesOf(Canon(m, local), local)
    ensures status != Ok ==> out == null
  {
    out := null;
    if !context { return Denied, null; }
    var rows;
    status, rows := Validate(m, local, memory);
    if status != Ok { return; }
    if !memory { return Limit, null; }
    SameRows(m, rows, local);
    OrderedEncode(m, rows, local);
    RowsPrintable(rows);
    out := TwoPasses(m, rows, local);
  }

  // ---------------------------------------------------------------- decoder

  /** The bytes are those of a canonical image. */
  ghost predicate Encodes(data: Bytes, q: Image, local: bool) {
    Canonical(q, local) && BytesOf(q, local) == data
  }

  /** The bytes are clean rows in order, then retries, then nothing. */
  predicate IsLists(s: Bytes, xs: seq<Row>, ts: seq<Retry>) {
    RowsClean(xs) && Ascending(xs) && s == EncLists(xs, ts)
  }

  ghost predicate ListsStart(s: Bytes, rows: nat, retries: nat) {
    exists xs, ts :: IsLists(s, xs, ts) && |xs| == rows && |ts| == retries
  }

  lemma RowsStartWith(s: Bytes, xs: seq<Row>, t: Bytes)
    requires RowsClean(xs) && Ascending(xs) && s == EncRows(xs) + t
    ensures RowsStart(s, |xs|)
  {}

  lemma ListsRows(s: Bytes, rows: nat, retries: nat)
    requires ListsStart(s, rows, retries)
    ensures RowsStart(s, rows)
  {
    var xs, ts :| IsLists(s, xs, ts) && |xs| == rows && |ts| == retries;
    RowsStartWith(s, xs, EncRetries(ts));
  }

  lemma ListsAfterRows(s: Bytes, rows: nat, retries: nat, ys: seq<Row>, rest: Bytes)
    requires ListsStart(s, rows, retries) && |ys| == rows && RowsClean(ys) && s == EncRows(ys) + rest
    ensures |rest| == 124 * retries
  {
    var xs, ts :| IsLists(s, xs, ts) && |xs| == rows && |ts| == retries;
    RowsEq(ys, rest, xs, EncRetries(ts));
  }

  /** Rows, then retries, then nothing. */
  method ReadLists(r: Reader, rows: nat, retries: nat) returns (xs: seq<Row>, ts: seq<Retry>, ok: bool)
    requires r.position <= |r.data| && r.valid
    modifies r
    ensures r.position <= |r.data|
    ensures ok ==> IsLists(old(r.Rest()), xs, ts) && |xs| == rows && |ts| == retries
    ensures ListsStart(old(r.Rest()), rows, retries) ==> ok
  {
    ghost var s := r.Rest();
    ts := [];
    if ListsStart(s, rows, retries) { ListsRows(s, rows, retries); }
    xs, ok := ReadRows(r, rows);
    if !ok { return; }
    ghost var rest := r.Rest();
    if ListsStart(s, rows, retries) { ListsAfterRows(s, rows, retries, xs, rest); }
    ts := ReadRetries(r, retries);
    ok := r.valid && r.position == |r.data|;
    if ok { assert EncRetries(ts) == rest; }
  }

  /** The local root, if the image has one. */
  method ReadRoot(r: Reader, local: bool) returns (root: Option<User>)
    requires r.position <= |r.data| && r.valid
    modifies r
    ensures r.position <= |r.data| && r.valid == (!local || Starts(old(r.Rest()), true))
    ensures root.Some? == local
    ensures r.valid ==> (local ==> Clean(root.value, true) && old(r.Rest()) == EncPrincipal(root.value) + r.Rest())
    ensures !local ==> r.Rest() == old(r.Rest())
  {
    root := None;
    if local {
      var u := ReadPrincipal(r, true);
      root := Some(u);
    }
  }

  /** What a decoder finds after the header of a canonical image. */
  lemma BodyFound(q: Image, local: bool, body: Bytes)
    requires Canonical(q, local) && body == EncBody(q, local)
    ensures local ==> Starts(body, true)
    ensures !local ==> ListsStart(body, |q.rows|, |q.retries|)
  {
    var lists := EncLists(q.rows, q.retries);
    if local {
      StartsWith(body, q.root.value, lists, true);
    } else {
      assert [] + lists == lists;
      assert IsLists(body, q.rows, q.retries);
    }
  }

  lemma ListsFound(q: Image, body: Bytes, u: User, rest: Bytes)
    requires Canonical(q, true) && body == EncBody(q, true) && Clean(u, true) && body == EncPrincipal(u) + rest
    ensures ListsStart(rest, |q.rows|, |q.retries|)
  {
    PrincipalEq(u, rest, q.root.value, EncLists(q.rows, q.retries), true);
    assert IsLists(rest, q.rows, q.retries);
  }

  /** The checks on the header before any row is read; `rest` bytes follow it. */
  predicate HeaderFine(h: Header, local: bool, rest: nat) {
    && h.magic == Magic(QAIMAGE1, 1, if local then PURPOSE_DURABLE else PURPOSE_TRANSFER)
    && h.counts.hasRoot == (if local then 1 else 0) && (local || h.root.binding == Zero48())
    && h.counts.rows <= MAX_PRINCIPALS && h.counts.retries <= RETRY_MAX
    && h.counts.rows <= rest / 25 && h.counts.retries <= rest / 124
  }

  method CheckHeader(h: Header, local: bool, rest: nat) returns (ok: bool)
    ensures ok == HeaderFine(h, local, rest)
  {
    if h.magic.magic != QAIMAGE1 || h.magic.version != 1
       || h.magic.purpose != (if local then PURPOSE_DURABLE else PURPOSE_TRANSFER) { return false; }
    var bound := BytesNonZero(h.root.binding);
    assert bound <==> h.root.binding != Zero48();
    return h.counts.hasRoot == (if local then 1 else 0) && (local || !bound)
      && h.counts.rows <= MAX_PRINCIPALS && h.counts.retries <= RETRY_MAX
      && h.counts.rows <= rest / 25 && h.counts.retries <= rest / 124;
  }

  function ImageOf(h: Header, root: Option<User>, xs: seq<Row>, ts: seq<Retry>): Image {
    Image(h.position, h.root.binding, root, h.root.generation, h.root.failed, h.root.lockout, xs, ts)
  }

  /** The header of a canonical image passes, whatever its size. */
  lemma HeaderPasses(q: Image, local: bool)
    requires Canonical(q, local)
    ensures HeaderFine(HeaderOf(q, local), local, |EncBody(q, local)|)
  {
    assert |EncBody(q, local)| >= 25 * |q.rows| + 124 * |q.retries|;
  }

  /** Some canonical image has those bytes. */
  ghost predicate Genuine(data: Bytes, local: bool) {
    exists q :: Encodes(data, q, local)
  }

  /** Everything a decoder has accepted, short of validation. */
  ghost predicate Accepted(data: Bytes, m: Image, local: bool) {
    Writable(m, local) && EncImage(m, local) == data && Ascending(m.rows)
  }

  lemma Assembled(h: Header, local: bool, root: Option<User>, xs: seq<Row>, ts: seq<Retry>, body: Bytes)
    requires HeaderFine(h, local, |body|) && |xs| == h.counts.rows && |ts| == h.counts.retries
    requires IsParts(body, local, root, xs, ts)
    ensures Accepted(EncHeader(h) + body, ImageOf(h, root, xs, ts), local)
  {
    var m := ImageOf(h, root, xs, ts);
    assert HeaderOf(m, local) == h;
  }

  /** If any canonical image has those bytes, it is the one that was read. */
  lemma AcceptedGenuine(data: Bytes, m: Image, local: bool)
    requires Accepted(data, m, local) && Genuine(data, local)
    ensures ValidImage(m, local)
  {
    var q :| Encodes(data, q, local);
    CanonicalWritable(q, local);
    WritableInjective(m, q, local);
  }

  lemma AcceptedEncodes(data: Bytes, m: Image, local: bool)
    requires Accepted(data, m, local) && ValidImage(m, local)
    ensures Encodes(data, m, local)
  {}

  /** Some canonical image has that body. */
  ghost predicate BodyOfSome(s: Bytes, local: bool, rows: nat, retries: nat) {
    exists q :: Canonical(q, local) && |q.rows| == rows && |q.retries| == retries && EncBody(q, local) == s
  }

  lemma SomeRoot(s: Bytes, local: bool, rows: nat, retries: nat)
    requires BodyOfSome(s, local, rows, retries)
    ensures local ==> Starts(s, true)
    ensures !local ==> ListsStart(s, rows, retries)
  {
    var q :| Canonical(q, local) && |q.rows| == rows && |q.retries| == retries && EncBody(q, local) == s;
    BodyFound(q, local, s);
  }

  lemma SomeLists(s: Bytes, rows: nat, retries: nat, u: User, rest: Bytes)
    requires BodyOfSome(s, true, rows, retries) && Clean(u, true) && s == EncPrincipal(u) + rest
    ensures ListsStart(rest, rows, retries)
  {
    var q :| Canonical(q, true) && |q.rows| == rows && |q.retries| == retries && EncBody(q, true) == s;
    ListsFound(q, s, u, rest);
  }

  method ReadParts(r: Reader, local: bool, rows: nat, retries: nat)
    returns (root: Option<User>, xs: seq<Row>, ts: seq<Retry>, ok: bool)
    requires r.position <= |r.data| && r.valid
    modifies r
    ensures ok ==> IsParts(old(r.Rest()), local, root, xs, ts) && |xs| == rows && |ts| == retries
    ensures BodyOfSome(old(r.Rest()), local, rows, retries) ==> ok
  {
    ghost var s := r.Rest();
    ghost var proper := BodyOfSome(s, local, rows, retries);
    if proper { SomeRoot(s, local, rows, retries); }
    xs, ts := [], [];
    root := ReadRoot(r, local);
    if !r.valid { return None, [], [], false; }
    ghost var lists := r.Rest();
    if proper && local { SomeLists(s, rows, retries, root.value, lists); }
    xs, ts, ok := ReadLists(r, rows, retries);
    if ok { JoinParts(s, local, root, lists, xs, ts); }
  }

  predicate IsParts(s: Bytes, local: bool, root: Option<User>, xs: seq<Row>, ts: seq<Retry>) {
    root.Some? == local && PartsClean(root, xs) && Ascending(xs) && s == EncParts(root, xs, ts)
  }

  lemma JoinParts(s: Bytes, local: bool, root: Option<User>, lists: Bytes, xs: seq<Row>, ts: seq<Retry>)
    requires root.Some? == local && IsLists(lists, xs, ts)
    requires local ==> Clean(root.value, true) && s == EncPrincipal(root.value) + lists
    requires !local ==> s == lists
    ensures IsParts(s, local, root, xs, ts)
  {
    assert [] + lists == lists;
  }

  lemma GenuineHeader(data: Bytes, local: bool, h: Header, body: Bytes)
    requires Genuine(data, local) && data == EncHeader(h) + body
    ensures HeaderFine(h, local, |body|) && BodyOfSome(body, local, h.counts.rows, h.counts.retries)
  {
    var q :| Encodes(data, q, local);
    HeaderEq(h, body, HeaderOf(q, local), EncBody(q, local));
    HeaderPasses(q, local);
  }

  /** Reads and checks the header. */
  method ReadTop(data: Bytes, local: bool) returns (r: Reader, h: Header, ok: bool)
    requires |data| >= IMAGE_MIN
    ensures fresh(r) && r.valid && r.position <= |r.data| && data == EncHeader(h) + r.Rest()
    ensures ok == HeaderFine(h, local, |r.Rest()|)
  {
    r := new Reader(data);
    assert r.Rest() == data;
    h := ReadHeader(r);
    ok := CheckHeader(h, local, |data| - r.position);
  }

  /** The reading half of the decoder. */
  method ReadImage(data: Bytes, local: bool) returns (m: Image, ok: bool)
    requires |data| >= IMAGE_MIN
    ensures ok ==> Accepted(data, m, local)
    ensures Genuine(data, local) ==> ok
  {
    var r, h;
    r, h, ok := ReadTop(data, local);
    ghost var body, genuine := r.Rest(), Genuine(data, local);
    if genuine { GenuineHeader(data, local, h, body); }
    var root, xs, ts := None, [], [];
    if ok {
      root, xs, ts, ok := ReadParts(r, local, h.counts.rows, h.counts.retries);
    }
    m := ImageOf(h, root, xs, ts);
    if ok { Assembled(h, local, root, xs, ts, body); }
  }

  /** `image_decode_purpose`: accepts exactly the bytes of canonical images, and answers the
      one image with those bytes. */
  method DecodeImage(context: bool, data: Bytes, local: bool, memory: bool) returns (status: Status, m: Option<Image>)
    ensures m.Some? <==> status == Ok
    ensures m.Some? ==> context && Encodes(data, m.value, local)
    ensures context && memory && m.None? ==> !Genuine(data, local)
    ensures status == Denied <==> !context
  {
    if !context { return Denied, None; }
    if |data| < IMAGE_MIN || |data| > ARCHIVE_MAX { return Corrupt, None; }
    if !memory { return Limit, None; }
    var image, ok := ReadImage(data, local);
    if !ok { return Corrupt, None; }
    var ordered;
    status, ordered := Validate(image, local, memory);
    if status != Ok {
      if Genuine(data, local) { AcceptedGenuine(data, image, local); }
      return if status == Invalid then Corrupt else status, None;
    }
    AcceptedEncodes(data, image, local);
    return Ok, Some(image);
  }

  /** Decoding an encoded image gives its canonical form: the same authority in id order. */
  lemma RoundTrip(m: Image, d: Image, local: bool)
    requires ValidImage(m, local) && Encodes(BytesOf(Canon(m, local), local), d, local)
    ensures d == Canon(m, local)
  {
    CanonLaws(m, local);
    ImageInjective(d, Canon(m, local), local);
  }
}
