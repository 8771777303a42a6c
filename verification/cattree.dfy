/** The catalog: directory entries as records of a B+tree (extractor/vdfs-tools/lib/cattree.c).

A record (parent, name, object) names an object of a directory. For most records the tree
also holds an ilink (object, name, parent), from which the parents of an object are found. */
module Cattree {
  import opened Octets
  import opened Keys
  import opened Order
  import opened Nodes
  import opened Levels
  import opened Towers
  import opened Steps
  import opened Maps
  import opened BTree

  /** Catalog record types (include/vdfs4_layout.h). */
  const FOLDER: nat := 1
  const FILE: nat := 2
  const HLINK: nat := 3
  const DLINK: nat := 4
  const ILINK: nat := 5

  /** GREATEST_AVAIL_ID, VDFS4_ROOTDIR_OBJ_ID and VDFS4_ROOT_INO. */
  const GREATEST_ID: nat := 0xFFFF_FFFF_FFFF_FFFF
  const ROOTDIR_OBJ_ID: nat := 0
  const ROOT_INO: nat := 1

  /** The key of the root directory, named "root". */
  const ROOT_KEY := Key(ROOTDIR_OBJ_ID, [0x72, 0x6F, 0x6F, 0x74], ROOT_INO)

  function Align8(n: nat): nat {
    (n + 7) / 8 * 8
  }

  /** vdfs4_alloc_cattree_key: the key length, and the length of the value behind it. */
  function KeyLen(name: Bytes): nat {
    Align8(26 + |name|)
  }

  function ValueLen(recordType: nat): nat {
    if recordType == FILE then 312
    else if recordType == FOLDER then 80
    else if recordType == HLINK then 8
    else if recordType == DLINK then 104
    else 0
  }

  function Record(key: Key, recordType: nat, value: Bytes): Rec {
    Rec(key, KeyLen(key.name), KeyLen(key.name) + ValueLen(recordType), Data(recordType, value))
  }

  function TypeOf(r: Rec): nat {
    if r.val.Data? then r.val.recordType else 0
  }

  /** vdfs4_cattree_is_orphan: bit 12 of the flags, which are the first four bytes of the value. */
  predicate IsOrphan(r: Rec) {
    && (TypeOf(r) == FOLDER || TypeOf(r) == FILE || TypeOf(r) == DLINK)
    && |r.val.bytes| > 1 && r.val.bytes[1] as int / 16 % 2 == 1
  }

  /** The key with parent and object exchanged. */
  function Mirror(k: Key): Key {
    Key(k.obj, k.name, k.parent)
  }

  /** Records that have an ilink. */
  predicate NeedsIlink(k: Key, recordType: nat) {
    k.obj != k.parent && recordType != HLINK && recordType != ILINK
  }

  ghost predicate IsLinked(m: map<Key, Rec>, k: Key) {
    k in m && k != ROOT_KEY && NeedsIlink(k, TypeOf(m[k]))
  }

  ghost predicate IsIlink(m: map<Key, Rec>, k: Key) {
    k in m && TypeOf(m[k]) == ILINK
  }

  /** Ilinks are the reverse index: a record that needs one is there exactly when its ilink is. */
  ghost predicate ReverseIndex(m: map<Key, Rec>) {
    forall k :: IsLinked(m, k) <==> IsIlink(m, Mirror(k))
  }

  /** The key is not in use for records of another type. */
  ghost predicate TypeFits(m: map<Key, Rec>, k: Key, recordType: nat) {
    k in m ==> TypeOf(m[k]) == recordType
  }

  /** An entry's key, and its mirror for the ilink, are each used under one record type. */
  ghost predicate EntryFits(m: map<Key, Rec>, k: Key, recordType: nat) {
    EntryType(recordType) && TypeFits(m, k, recordType) && (NeedsIlink(k, recordType) ==> TypeFits(m, Mirror(k), ILINK))
  }

  predicate EntryType(recordType: nat) {
    recordType == FOLDER || recordType == FILE || recordType == HLINK || recordType == DLINK
  }

  ghost predicate AllTyped(m: map<Key, Rec>) {
    forall k :: k in m ==> EntryType(TypeOf(m[k])) || TypeOf(m[k]) == ILINK
  }

  ghost predicate CatalogOk(m: map<Key, Rec>) {
    ReverseIndex(m) && AllTyped(m) && ROOT_KEY in m && TypeOf(m[ROOT_KEY]) == FOLDER
  }

  /** Folders, files and data links stand in a directory of another id with an ilink: in every catalog, the root
  directory aside, such a record is there exactly when the ilink (object, name, parent) is. */
  lemma LinkedBothWays(m: map<Key, Rec>, parent: nat, name: Bytes, obj: nat)
    requires CatalogOk(m)
    ensures (&& Key(parent, name, obj) in m && TypeOf(m[Key(parent, name, obj)]) in {FOLDER, FILE, DLINK}
             && parent != obj && Key(parent, name, obj) != ROOT_KEY)
       <==> (Key(obj, name, parent) in m && TypeOf(m[Key(obj, name, parent)]) == ILINK)
  {
    assert IsLinked(m, Key(parent, name, obj)) <==> IsIlink(m, Mirror(Key(parent, name, obj)));
  }

  /** The lengths of a record: a key of 26 bytes and the name, filled up to a multiple of eight, and the value of its
  type. The common part of inodes takes 80 bytes, the extents of a file 232. */
  lemma RecordLengths(k: Key, recordType: nat, value: Bytes)
    requires EntryType(recordType) || recordType == ILINK
    ensures var r := Record(k, recordType, value);
      && r.key == k && r.val == Data(recordType, value)
      && r.keyLen % 8 == 0 && 26 + |k.name| <= r.keyLen < 26 + |k.name| + 8
      && (recordType == ILINK ==> r.recLen == r.keyLen)
      && (recordType == HLINK ==> r.recLen == r.keyLen + 2 + 2 + 4)
      && (recordType in {FOLDER, FILE, DLINK} ==> r.recLen >= r.keyLen + 80)
      && (recordType == FOLDER ==> r.recLen == r.keyLen + 80)
      && (recordType == FILE ==> r.recLen == r.keyLen + 80 + 232)
      && (recordType == DLINK ==> r.recLen == r.keyLen + 80 + 3 * 8)
  {
  }

  /** Bit 12 of the little-endian flags that a value starts with makes an orphan of a folder, file or data link. */
  lemma OrphanBit(k: Key, recordType: nat, flags: Bytes, rest: Bytes)
    requires |flags| == 4
    ensures IsOrphan(Record(k, recordType, flags + rest)) <==>
              recordType in {FOLDER, FILE, DLINK}
              && Word(flags[0], flags[1], flags[2], flags[3]) / 0x1000 % 2 == 1
  {
    hide Word;
    assert (flags + rest)[1] == flags[1];
    BitTwelve(flags[0], flags[1], flags[2], flags[3]);
  }

  /** A little-endian word. */
  function Word(b0: int, b1: int, b2: int, b3: int): int {
    b0 + 0x100 * b1 + 0x1_0000 * b2 + 0x100_0000 * b3
  }

  lemma BitTwelve(b0: int, b1: int, b2: int, b3: int)
    requires 0 <= b0 < 256 && 0 <= b1 < 256 && 0 <= b2 && 0 <= b3
    ensures Word(b0, b1, b2, b3) / 0x1000 % 2 == b1 / 16 % 2
  {
    var q, r := b1 / 16, b0 + 0x100 * (b1 % 16);
    assert Word(b0, b1, b2, b3) == r + 0x1000 * (q + 2 * (8 * b2 + 0x800 * b3));
  }

  /* ---- what a placed or removed record does to the reverse index ---- */

  lemma MirrorTwice(k: Key)
    ensures Mirror(Mirror(k)) == k && (k.obj != k.parent ==> Mirror(k) != k)
  {
  }

  /** A new record and, where it needs one, its ilink. */
  function WithEntry(m: map<Key, Rec>, k: Key, recordType: nat, value: Bytes): map<Key, Rec> {
    var m' := if NeedsIlink(k, recordType) then m[Mirror(k) := Record(Mirror(k), ILINK, [])] else m;
    m'[k := Record(k, recordType, value)]
  }

  /** Where each key has one type, a record and its ilink are both there or both missing. */
  lemma BothOrNone(m: map<Key, Rec>, k: Key, recordType: nat)
    requires CatalogOk(m) && EntryFits(m, k, recordType) && k != ROOT_KEY && NeedsIlink(k, recordType)
    ensures k in m <==> Mirror(k) in m
  {
    MirrorTwice(k);
    assert IsLinked(m, k) <==> IsIlink(m, Mirror(k));
  }

  lemma NoRootIlink(m: map<Key, Rec>)
    requires CatalogOk(m) && TypeFits(m, Mirror(ROOT_KEY), ILINK)
    ensures Mirror(ROOT_KEY) !in m
  {
    assert IsLinked(m, ROOT_KEY) <==> IsIlink(m, Mirror(ROOT_KEY));
  }

  lemma PlacedOk(m: map<Key, Rec>, k: Key, recordType: nat, value: Bytes)
    requires CatalogOk(m) && EntryFits(m, k, recordType)
    requires k !in m && (NeedsIlink(k, recordType) ==> Mirror(k) !in m)
    ensures CatalogOk(WithEntry(m, k, recordType, value))
  {
    var m' := WithEntry(m, k, recordType, value);
    forall j ensures IsLinked(m', j) <==> IsIlink(m', Mirror(j)) {
      MirrorTwice(j);
      MirrorTwice(k);
      assert IsLinked(m, j) <==> IsIlink(m, Mirror(j));
    }
  }

  /** Without a record and, where it had one, its ilink. */
  function WithoutEntry(m: map<Key, Rec>, k: Key, recordType: nat): map<Key, Rec> {
    if NeedsIlink(k, recordType) then m - {Mirror(k)} - {k} else m - {k}
  }

  lemma TakenOk(m: map<Key, Rec>, k: Key, recordType: nat)
    requires CatalogOk(m) && k in m && EntryFits(m, k, recordType) && k != ROOT_KEY
    ensures CatalogOk(WithoutEntry(m, k, recordType))
  {
    var m' := WithoutEntry(m, k, recordType);
    MirrorTwice(k);
    assert IsLinked(m, k) <==> IsIlink(m, Mirror(k));
    forall j ensures IsLinked(m', j) <==> IsIlink(m', Mirror(j)) {
      MirrorTwice(j);
      assert IsLinked(m, j) <==> IsIlink(m, Mirror(j));
    }
  }

  /* ---- directories without cycles ---- */

  /** Each entry ranks above its directory, so no directory is below itself. */
  ghost predicate Ranked(m: map<Key, Rec>, rank: nat -> nat) {
    forall k :: k in m ==> KeyRanked(k, TypeOf(m[k]), rank)
  }

  ghost predicate KeyRanked(k: Key, recordType: nat, rank: nat -> nat) {
    if recordType == ILINK then rank(k.obj) < rank(k.parent)
    else k.obj == k.parent || rank(k.parent) < rank(k.obj)
  }

  /** In directories without cycles no mirror of an entry is in use as an entry. */
  lemma RankedFits(m: map<Key, Rec>, rank: nat -> nat, k: Key, recordType: nat)
    requires Ranked(m, rank) && EntryType(recordType) && TypeFits(m, k, recordType) && KeyRanked(k, recordType, rank)
    ensures EntryFits(m, k, recordType)
  {
    if Mirror(k) in m {
      assert KeyRanked(Mirror(k), TypeOf(m[Mirror(k)]), rank);
    }
  }

  lemma RankedStays(m: map<Key, Rec>, rank: nat -> nat, k: Key, recordType: nat, value: Bytes)
    requires Ranked(m, rank) && EntryType(recordType) && KeyRanked(k, recordType, rank)
    ensures Ranked(WithEntry(m, k, recordType, value), rank) && Ranked(WithoutEntry(m, k, recordType), rank)
  {
    MirrorTwice(k);
    assert NeedsIlink(k, recordType) ==> KeyRanked(Mirror(k), ILINK, rank);
  }

  /* ---- what placing and removing do to any catalog ---- */

  /** A result and the map it leaves. */
  datatype Effect = Effect(st: Status, m: map<Key, Rec>)

  /** vdfs4_btree_place_data above the first record, and vdfs4_btree_remove. */
  function Placing(m: map<Key, Rec>, rec: Rec): Effect {
    if rec.key in m then Effect(EEXIST, m) else Effect(Ok, m[rec.key := rec])
  }

  function Taking(m: map<Key, Rec>, k: Key): Effect {
    if k !in m then Effect(ENOENT, m)
    else if m.Keys == {k} then Effect(Bug, m)
    else Effect(Ok, m - {k})
  }

  /** vdfs4_cattree_place_record: an ilink that is placed stays when the record is refused. */
  function PlaceEffect(m: map<Key, Rec>, k: Key, recordType: nat, value: Bytes): Effect {
    if !NeedsIlink(k, recordType) then Placing(m, Record(k, recordType, value)) else
    var ilink := Placing(m, Record(Mirror(k), ILINK, []));
    if ilink.st != Ok then ilink else Placing(ilink.m, Record(k, recordType, value))
  }

  /** vdfs4_cattree_remove: whatever has the ilink's key is removed first. */
  function RemoveEffect(m: map<Key, Rec>, k: Key, recordType: nat): Effect {
    if !NeedsIlink(k, recordType) then Taking(m, k) else
    var ilink := Taking(m, Mirror(k));
    if ilink.st != Ok then ilink else Taking(ilink.m, k)
  }

  /** What placing an entry leaves. A hard link, and an entry of a directory of its own id, is one record. Any other
  entry is two, the ilink (object, name, parent) first. */
  ghost predicate EntryPlaced(m: map<Key, Rec>, parent: nat, name: Bytes, obj: nat, recordType: nat, value: Bytes,
                              st: Status, m': map<Key, Rec>) {
    var (key, ilink) := (Key(parent, name, obj), Key(obj, name, parent));
    if recordType == HLINK || parent == obj then
      if key in m then st == EEXIST && m' == m else st == Ok && m' == m[key := Record(key, recordType, value)]
    else if ilink in m then st == EEXIST && m' == m
    else if key in m then st == EEXIST && m' == m[ilink := Record(ilink, ILINK, [])]
    else st == Ok && m' == m[ilink := Record(ilink, ILINK, [])][key := Record(key, recordType, value)]
  }

  /** What removing an entry leaves: the catalog without the same records, the ilink's going first. */
  ghost predicate EntryTaken(m: map<Key, Rec>, parent: nat, name: Bytes, obj: nat, recordType: nat, st: Status, m': map<Key, Rec>) {
    var (key, ilink) := (Key(parent, name, obj), Key(obj, name, parent));
    if recordType == HLINK || parent == obj then st == (if key in m then Ok else ENOENT) && m' == m - {key}
    else if ilink in m then st == (if key in m then Ok else ENOENT) && m' == m - {ilink, key}
    else st == ENOENT && m' == m
  }

  lemma PlacedRecords(m: map<Key, Rec>, parent: nat, name: Bytes, obj: nat, recordType: nat, value: Bytes)
    requires EntryType(recordType)
    ensures var e := PlaceEffect(m, Key(parent, name, obj), recordType, value);
            EntryPlaced(m, parent, name, obj, recordType, value, e.st, e.m)
  {
  }

  lemma TakenRecords(m: map<Key, Rec>, parent: nat, name: Bytes, obj: nat, recordType: nat)
    requires EntryType(recordType) && exists k :: Other(m, k, parent, name, obj)
    ensures var e := RemoveEffect(m, Key(parent, name, obj), recordType);
            EntryTaken(m, parent, name, obj, recordType, e.st, e.m)
  {
    var key, ilink := Key(parent, name, obj), Key(obj, name, parent);
    var k :| Other(m, k, parent, name, obj);
    assert k in m.Keys && k in (m - {ilink}).Keys;
    assert m - {ilink} - {key} == m - {ilink, key};
  }

  /** A record that is neither the entry nor its ilink. */
  ghost predicate Other(m: map<Key, Rec>, k: Key, parent: nat, name: Bytes, obj: nat) {
    k in m && k != Key(parent, name, obj) && k != Key(obj, name, parent)
  }

  /** The entry's key and that of its ilink are both in use or both free. */
  predicate Paired(m: map<Key, Rec>, k: Key, recordType: nat) {
    NeedsIlink(k, recordType) ==> (k in m <==> Mirror(k) in m)
  }

  /** What is expected of placing an entry and of removing one. */
  function PlaceWanted(m: map<Key, Rec>, k: Key, recordType: nat, value: Bytes): Effect {
    if k in m then Effect(EEXIST, m) else Effect(Ok, WithEntry(m, k, recordType, value))
  }

  function RemoveWanted(m: map<Key, Rec>, k: Key, recordType: nat): Effect {
    if k in m && k != ROOT_KEY then Effect(Ok, WithoutEntry(m, k, recordType)) else Effect(ENOENT, m)
  }

  /** For all maps: placing does what is expected exactly when the two keys are paired. */
  lemma PlaceExact(m: map<Key, Rec>, k: Key, recordType: nat, value: Bytes)
    ensures Paired(m, k, recordType) <==> PlaceEffect(m, k, recordType, value) == PlaceWanted(m, k, recordType, value)
  {
    MirrorTwice(k);
    var ilink := Record(Mirror(k), ILINK, []);
    assert Mirror(k) !in m ==> m[Mirror(k) := ilink] != m by {
      if Mirror(k) !in m {
        assert Mirror(k) in m[Mirror(k) := ilink];
      }
    }
  }

  /** In a catalog where the entry's key has its one type: removing does what is expected exactly when the ilink's key
  has its one type too, and that is when the keys are paired. */
  lemma RemoveExact(m: map<Key, Rec>, k: Key, recordType: nat)
    requires CatalogOk(m) && EntryType(recordType) && TypeFits(m, k, recordType) && k != ROOT_KEY
    ensures EntryFits(m, k, recordType) <==> RemoveEffect(m, k, recordType) == RemoveWanted(m, k, recordType)
    ensures EntryFits(m, k, recordType) <==> Paired(m, k, recordType)
  {
    MirrorTwice(k);
    assert IsLinked(m, k) <==> IsIlink(m, Mirror(k));
    assert ROOT_KEY in m.Keys;
    if EntryFits(m, k, recordType) && k in m {
      TakenOk(m, k, recordType);
      assert NeedsIlink(k, recordType) ==> ROOT_KEY in (m - {Mirror(k)}).Keys;
    }
    if Mirror(k) in m && m.Keys != {Mirror(k)} {
      assert Mirror(k) !in m - {Mirror(k)};
    }
  }

  /** The entry's key is in use, its ilink's is not. */
  predicate Stray(m: map<Key, Rec>, k: Key, recordType: nat) {
    NeedsIlink(k, recordType) && k in m && Mirror(k) !in m
  }

  /** Placing keeps a catalog in order except when the entry's key is in use but its ilink's is not: then the ilink
  stays behind without an entry. */
  lemma PlaceKeeps(m: map<Key, Rec>, k: Key, recordType: nat, value: Bytes)
    requires CatalogOk(m) && EntryType(recordType)
    ensures CatalogOk(PlaceEffect(m, k, recordType, value).m) <==> !Stray(m, k, recordType)
  {
    MirrorTwice(k);
    assert IsLinked(m, k) <==> IsIlink(m, Mirror(k));
    var e := PlaceEffect(m, k, recordType, value);
    if k !in m && (NeedsIlink(k, recordType) ==> Mirror(k) !in m) {
      PlacedOk(m, k, recordType, value);
    } else if NeedsIlink(k, recordType) && Mirror(k) !in m {
      assert IsIlink(e.m, Mirror(k)) && !IsLinked(e.m, k);
    }
  }

  /** The entry's key has its one type, and neither key is that of the root record. */
  ghost predicate Harmless(m: map<Key, Rec>, k: Key, recordType: nat) {
    EntryType(recordType) && TypeFits(m, k, recordType) && k != ROOT_KEY && (NeedsIlink(k, recordType) ==> Mirror(k) != ROOT_KEY)
  }

  /** Removing keeps a catalog in order then, the wrong record or not. */
  lemma RemoveKeeps(m: map<Key, Rec>, k: Key, recordType: nat)
    requires CatalogOk(m) && Harmless(m, k, recordType)
    ensures RemoveEffect(m, k, recordType).st != Bug && CatalogOk(RemoveEffect(m, k, recordType).m)
  {
    var m' := RemoveEffect(m, k, recordType).m;
    assert ROOT_KEY in m.Keys && (NeedsIlink(k, recordType) ==> ROOT_KEY in (m - {Mirror(k)}).Keys);
    MirrorTwice(k);
    assert IsLinked(m, k) <==> IsIlink(m, Mirror(k));
    assert IsLinked(m, Mirror(k)) <==> IsIlink(m, k);
    forall j ensures IsLinked(m', j) <==> IsIlink(m', Mirror(j)) {
      MirrorTwice(j);
      assert IsLinked(m, j) <==> IsIlink(m, Mirror(j));
    }
  }

  /** With a cycle an absent entry's ilink key can be the key of a hard link. Removing the entry then gives ENOENT, yet
  takes the hard link; placing the entry is refused. */
  lemma CycleConfuses()
    ensures exists m: map<Key, Rec>, k ::
              && CatalogOk(m) && k !in m && NeedsIlink(k, FILE) && IsHardlink(m, Mirror(k))
              && RemoveEffect(m, k, FILE) == Effect(ENOENT, m - {Mirror(k)})
              && forall value :: PlaceEffect(m, k, FILE, value) == Effect(EEXIST, m)
  {
    var k := Key(5, [0x61], 7);
    var m := map[ROOT_KEY := Record(ROOT_KEY, FOLDER, []), Mirror(k) := Record(Mirror(k), HLINK, [])];
    assert ROOT_KEY in m.Keys;
    assert CatalogOk(m) && IsHardlink(m, Mirror(k));
    assert RemoveEffect(m, k, FILE) == Effect(ENOENT, m - {Mirror(k)});
    assert forall value :: PlaceEffect(m, k, FILE, value) == Effect(EEXIST, m);
  }

  ghost predicate IsHardlink(m: map<Key, Rec>, k: Key) {
    k in m && TypeOf(m[k]) == HLINK
  }

  /* ---- places in the record sequence ---- */

  /** Record `r` is an entry of that name in the directory. */
  predicate Named(r: Rec, parent: nat, name: Bytes) {
    r.key.parent == parent && r.key.name == name
  }

  lemma ContentsOf(f: seq<Rec>, k: Key)
    requires Sorted(Cmp, f)
    ensures k in AsMap(f) <==> HasKey(f, k)
    ensures forall j :: 0 <= j < |f| ==> f[j].key in AsMap(f) && AsMap(f)[f[j].key] == f[j]
    ensures k in AsMap(f) ==> AsMap(f)[k].key == k
  {
    CatalogOrder();
    AsMapKeys(Cmp, f);
  }

  /** A directory entry of that name that is not an orphan. */
  ghost predicate HasLive(f: seq<Rec>, parent: nat, name: Bytes) {
    exists j :: 0 <= j < |f| && Named(f[j], parent, name) && !IsOrphan(f[j])
  }

  /** The first record of the tree has that name, and the last one of that name is an orphan. */
  ghost predicate Blind(f: seq<Rec>, parent: nat, name: Bytes) {
    && |f| > 0 && Named(f[0], parent, name)
    && exists g :: 0 <= g < |f| && Named(f[g], parent, name) && IsOrphan(f[g])
                   && forall j :: g < j < |f| ==> !Named(f[j], parent, name)
  }

  ghost predicate PositiveIds(f: seq<Rec>, parent: nat, name: Bytes) {
    forall j :: 0 <= j < |f| && Named(f[j], parent, name) ==> 0 < f[j].key.obj <= GREATEST_ID
  }

  lemma SameNames(a: Bytes, b: Bytes)
    ensures NameCmp(a, b) == 0 <==> a == b
    ensures NameCmp(a, a) == 0
  {
    CmpZero(Key(0, a, 0), Key(0, b, 0));
    CmpIsLexicographic(Key(0, a, 0), Key(0, b, 0));
    CmpZero(Key(0, a, 0), Key(0, a, 0));
    CmpIsLexicographic(Key(0, a, 0), Key(0, a, 0));
  }

  /** Keys between two keys of one name have that name. */
  lemma Between(a: Key, b: Key, c: Key)
    requires Cmp(a, b) <= 0 && Cmp(b, c) <= 0 && a.parent == c.parent && a.name == c.name
    ensures b.parent == a.parent && b.name == a.name
  {
    CmpIsLexicographic(a, b);
    CmpIsLexicographic(b, c);
    if NameCmp(a.name, b.name) <= 0 && NameCmp(b.name, a.name) <= 0 {
      NameCmpTransitive(a.name, b.name, a.name);
      SameNames(a.name, b.name);
    }
  }

  lemma SameNameCmp(parent: nat, name: Bytes, x: nat, y: nat)
    ensures Sign(Cmp(Key(parent, name, x), Key(parent, name, y))) == Sign(x - y)
  {
    CmpIsLexicographic(Key(parent, name, x), Key(parent, name, y));
    SameNames(name, name);
  }

  /** The records of a name stand between the places found for its least and greatest ids. */
  lemma NamedBetween(f: seq<Rec>, parent: nat, name: Bytes, j: nat)
    requires PositiveIds(f, parent, name) && j < |f| && Named(f[j], parent, name)
    ensures Cmp(Key(parent, name, 0), f[j].key) < 0 && Cmp(f[j].key, Key(parent, name, 0)) > 0
    ensures Cmp(f[j].key, Key(parent, name, GREATEST_ID)) <= 0
  {
    var o := f[j].key.obj;
    assert f[j].key == Key(parent, name, o);
    SameNameCmp(parent, name, 0, o);
    SameNameCmp(parent, name, o, 0);
    SameNameCmp(parent, name, o, GREATEST_ID);
  }

  lemma NoneUpTo(f: seq<Rec>, parent: nat, name: Bytes)
    requires PositiveIds(f, parent, name) && forall j :: 0 <= j < |f| ==> Cmp(f[j].key, Key(parent, name, GREATEST_ID)) > 0
    ensures !HasLive(f, parent, name)
  {
    if HasLive(f, parent, name) {
      var j :| 0 <= j < |f| && Named(f[j], parent, name) && !IsOrphan(f[j]);
      NamedBetween(f, parent, name, j);
    }
  }

  /** What the search for the greatest id tells. */
  lemma AtGreatest(f: seq<Rec>, parent: nat, name: Bytes, g: nat)
    requires Sorted(Cmp, f) && PositiveIds(f, parent, name) && IsFloor(Cmp, f, Key(parent, name, GREATEST_ID), g)
    ensures forall j :: g < j < |f| ==> !Named(f[j], parent, name)
    ensures !Named(f[g], parent, name) ==> !HasLive(f, parent, name)
  {
    forall j | 0 <= j < |f| && Named(f[j], parent, name) ensures j <= g && Named(f[g], parent, name) {
      NamedBetween(f, parent, name, j);
      if j < g {
        Between(f[j].key, f[g].key, Key(parent, name, GREATEST_ID));
      }
    }
  }

  lemma LastIsLive(f: seq<Rec>, parent: nat, name: Bytes, g: nat)
    requires g < |f| && Named(f[g], parent, name) && !IsOrphan(f[g])
    requires forall j :: g < j < |f| ==> !Named(f[j], parent, name)
    ensures HasLive(f, parent, name) && !Blind(f, parent, name)
  {
  }

  /** No record below the least id: the first record has the name. */
  lemma BelowAll(f: seq<Rec>, parent: nat, name: Bytes, g: nat)
    requires Sorted(Cmp, f) && g < |f| && Named(f[g], parent, name) && IsOrphan(f[g])
    requires forall j :: g < j < |f| ==> !Named(f[j], parent, name)
    requires forall j :: 0 <= j < |f| ==> Cmp(f[j].key, Key(parent, name, 0)) > 0
    ensures Blind(f, parent, name)
  {
    CmpFlip(f[0].key, Key(parent, name, 0));
    if g > 0 {
      Between(Key(parent, name, 0), f[0].key, f[g].key);
    }
  }

  /** From the place of the least id on, all records up to `p` are orphans of the name. */
  ghost predicate Orphans(f: seq<Rec>, parent: nat, name: Bytes, p0: int, p: int) {
    && 0 <= p0 <= p < |f| && IsFloor(Cmp, f, Key(parent, name, 0), p0)
    && forall j :: p0 < j <= p ==> Named(f[j], parent, name) && IsOrphan(f[j])
  }

  lemma NotBlind(f: seq<Rec>, parent: nat, name: Bytes, p0: int)
    requires PositiveIds(f, parent, name) && IsFloor(Cmp, f, Key(parent, name, 0), p0)
    ensures !Blind(f, parent, name)
  {
    if Named(f[0], parent, name) {
      NamedBetween(f, parent, name, 0);
    }
  }

  /** Behind the orphans the name's records end. */
  lemma OrphansEnd(f: seq<Rec>, parent: nat, name: Bytes, p0: int, p: int)
    requires Sorted(Cmp, f) && PositiveIds(f, parent, name) && Orphans(f, parent, name, p0, p)
    requires p + 1 < |f| ==> !Named(f[p + 1], parent, name)
    ensures !HasLive(f, parent, name)
  {
    forall j | 0 <= j < |f| && Named(f[j], parent, name) ensures IsOrphan(f[j]) {
      NamedBetween(f, parent, name, j);
      if j > p {
        CmpFlip(f[p + 1].key, Key(parent, name, 0));
        if j > p + 1 {
          Between(Key(parent, name, 0), f[p + 1].key, f[j].key);
        }
      }
    }
  }

  /** Records above the first one, which is not above the root record. */
  lemma AboveRoot(f: seq<Rec>, k: Key)
    requires Sorted(Cmp, f) && HasKey(f, ROOT_KEY) && k.parent > 0
    ensures |f| > 0 && Cmp(f[0].key, k) < 0
  {
    CatalogOrder();
    var j :| 0 <= j < |f| && f[j].key == ROOT_KEY;
    if j > 0 {
      Trans(Cmp, f[0].key, ROOT_KEY, k);
    }
  }

  lemma RecordBounded(k: Key, recordType: nat, value: Bytes, size: nat)
    requires |k.name| < 256 && size >= 8192
    ensures Bounded(Record(k, recordType, value), size)
  {
  }

  lemma TreeOrder(t: Btree)
    requires t.Valid() && t.cfg.cmp == Cmp
    ensures Sorted(Cmp, t.Records())
  {
    hide ChainOk, Indexes;
    TowerChain(t.cfg, t.T(), 0, {});
  }

  lemma RootThere(m: map<Key, Rec>, f: seq<Rec>)
    requires ROOT_KEY in m && m == AsMap(f) && Sorted(Cmp, f)
    ensures HasKey(f, ROOT_KEY)
  {
    ContentsOf(f, ROOT_KEY);
  }

  /** In a tree with the root record a key of another directory is above the first record. */
  lemma RoomAboveRoot(t: Btree, k: Key)
    requires t.Valid() && t.cfg.cmp == Cmp && ROOT_KEY in t.Contents() && k.parent > 0
    ensures |t.Records()| > 0 && Cmp(t.Records()[0].key, k) < 0
  {
    hide Sorted, AsMap, HasKey, Tower;
    TreeOrder(t);
    RootThere(t.Contents(), t.Records());
    AboveRoot(t.Records(), k);
  }

  /** A tree has one record exactly when its map has one key. */
  lemma Alone(t: Btree, k: Key)
    requires t.Valid() && t.cfg.cmp == Cmp
    ensures k in t.Contents() ==> (|t.Records()| == 1 <==> t.Contents().Keys == {k})
  {
    hide Sorted, AsMap, HasKey, Tower;
    TreeOrder(t);
    OneKeyOnly(t.Records(), k);
  }

  lemma OneKeyOnly(f: seq<Rec>, k: Key)
    requires Sorted(Cmp, f)
    ensures k in AsMap(f) ==> (|f| == 1 <==> AsMap(f).Keys == {k})
  {
    hide AsMap;
    CatalogOrder();
    AsMapKeys(Cmp, f);
    if k in AsMap(f) {
      assert HasKey(f, k);
      if |f| == 1 {
        forall j | j in AsMap(f) ensures j == k {
          assert HasKey(f, j);
        }
      } else {
        assert Cmp(f[0].key, f[1].key) < 0;
        CmpZero(f[0].key, f[1].key);
        assert f[0].key in AsMap(f) && f[1].key in AsMap(f);
      }
    }
  }

  lemma RootOnly(root: Rec)
    requires root.key == ROOT_KEY && TypeOf(root) == FOLDER
    ensures CatalogOk(AsMap([root]))
  {
    assert [root][..0] == [];
    assert AsMap([root]) == map[ROOT_KEY := root];
  }

  class Catalog {
    const tree: Btree

    ghost predicate Valid()
      reads this, tree
    {
      tree.Valid() && tree.cfg.cmp == Cmp && tree.cfg.size >= 8192 && CatalogOk(tree.Contents())
    }

    /** init_cattree: a tree with the root directory's record. */
    constructor (size: nat, value: Bytes)
      requires size >= 8192
      ensures Valid() && fresh(tree) && tree.Records() == [Record(ROOT_KEY, FOLDER, value)]
    {
      CatalogOrder();
      RecordBounded(ROOT_KEY, FOLDER, value, size);
      tree := new Btree(Cmp, size, Record(ROOT_KEY, FOLDER, value));
      new;
      RootOnly(Record(ROOT_KEY, FOLDER, value));
    }

    /** vdfs4_cattree_find_inode: the record of a key known in full. */
    method FindInode(obj: nat, parent: nat, name: Bytes) returns (st: Status, rec: Rec)
      requires tree.Valid() && tree.cfg.cmp == Cmp
      ensures st == Ok || st == ENOENT
      ensures st == Ok <==> Key(parent, name, obj) in tree.Contents()
      ensures st == Ok ==> rec == tree.Contents()[Key(parent, name, obj)]
    {
      hide Sorted, AsMap, Tower, FlatTo, UsedTo, ChainOk, Indexes, NodeOk, IsFloor;
      var key := Key(parent, name, obj);
      ghost var f := tree.Records();
      TreeOrder(tree);
      ContentsOf(f, key);
      var id: nat, pos: nat;
      ghost var i: nat;
      rec := Record(key, FOLDER, []);
      st, id, pos, i := tree.Find(key);
      if st != Ok {
        AllAbove(f, key);
        return;
      }
      rec := tree.bnodes[id].recs[pos];
      CmpZero(rec.key, key);
      ghost var g := PlaceOf(tree.T(), 0, i, pos);
      FloorBounds(Cmp, f, key, g);
      assert f[g].key in AsMap(f) && AsMap(f)[f[g].key] == f[g];
      if Cmp(rec.key, key) != 0 {
        st := ENOENT;
        NotAtFloor(f, key, g);
      }
    }

    /** vdfs4_cattree_find: the record of that name in the directory that is not an orphan,
    however orphans are interleaved; save that a name at the very start of the tree whose
    last record is an orphan is not found. */
    method Find(parent: nat, name: Bytes) returns (st: Status, rec: Rec)
      requires tree.Valid() && tree.cfg.cmp == Cmp
      requires PositiveIds(tree.Records(), parent, name)
      ensures st == Ok || st == ENOENT
      ensures st == Ok <==> HasLive(tree.Records(), parent, name) && !Blind(tree.Records(), parent, name)
      ensures InCatalog(tree.Contents(), parent) ==> (st == Ok <==> HasLive(tree.Records(), parent, name))
      ensures st == Ok ==> rec in tree.Records() && Named(rec, parent, name) && !IsOrphan(rec)
    {
      hide Sorted, AsMap, Tower, FlatTo, UsedTo, ChainOk, Indexes, NodeOk, IsFloor, PositiveIds, HasLive, Blind,
           IsOrphan, InCatalog;
      NeverBlindHere(tree, parent, name);
      ghost var f := tree.Records();
      TreeOrder(tree);
      var id: nat, pos: nat;
      ghost var i: nat;
      rec := Record(Key(parent, name, 0), FOLDER, []);
      st, id, pos, i := tree.Find(Key(parent, name, GREATEST_ID));
      if st != Ok {
        NoneUpTo(f, parent, name);
        return;
      }
      rec := tree.bnodes[id].recs[pos];
      ghost var g := PlaceOf(tree.T(), 0, i, pos);
      FloorBounds(Cmp, f, Key(parent, name, GREATEST_ID), g);
      AtGreatest(f, parent, name, g);
      CmpZero(rec.key, Key(parent, name, rec.key.obj));
      if Cmp(rec.key, Key(parent, name, rec.key.obj)) != 0 {
        st := ENOENT;
        return;
      }
      if !IsOrphan(rec) {
        LastIsLive(f, parent, name, g);
        return;
      }
      st, id, pos, i := tree.Find(Key(parent, name, 0));
      if st != Ok {
        BelowAll(f, parent, name, g);
        return;
      }
      ghost var p0 := PlaceOf(tree.T(), 0, i, pos);
      FloorBounds(Cmp, f, Key(parent, name, 0), p0);
      NotBlind(f, parent, name, p0);
      while true
        invariant st == Ok && IsNode(tree.T(), 0, i, id) && pos < |tree.bnodes[id].recs|
        invariant Orphans(f, parent, name, p0, PlaceOf(tree.T(), 0, i, pos))
        decreases |f| - PlaceOf(tree.T(), 0, i, pos)
      {
        ghost var p := PlaceOf(tree.T(), 0, i, pos);
        st, id, pos, i := tree.NextRecord(id, pos, i);
        if st != Ok {
          OrphansEnd(f, parent, name, p0, p);
          return;
        }
        rec := tree.bnodes[id].recs[pos];
        CmpZero(rec.key, Key(parent, name, rec.key.obj));
        if Cmp(rec.key, Key(parent, name, rec.key.obj)) != 0 {
          st := ENOENT;
          OrphansEnd(f, parent, name, p0, p);
          return;
        }
        if !IsOrphan(rec) {
          LiveAt(f, parent, name, p + 1);
          return;
        }
      }
    }

    /** vdfs4_cattree_place_record, with its value filled in: the ilink first, then the record. Where the record's key
    and its ilink's have one type each, a present key gives EEXIST and changes nothing, and the catalog stays in order. */
    method PlaceRecord(obj: nat, parent: nat, name: Bytes, recordType: nat, value: Bytes)
      returns (st: Status, ghost m: map<Key, Rec>)
      requires Valid() && obj > 0 && parent > 0 && |name| < 256 && EntryType(recordType)
      modifies tree
      ensures m == old(tree.Contents())
      ensures tree.Valid() && Effect(st, tree.Contents()) == PlaceEffect(m, Key(parent, name, obj), recordType, value)
      ensures Valid() <==> !Stray(m, Key(parent, name, obj), recordType)
      ensures EntryFits(m, Key(parent, name, obj), recordType) ==>
                Valid() && PlaceEffect(m, Key(parent, name, obj), recordType, value) == PlaceWanted(m, Key(parent, name, obj), recordType, value)
      ensures EntryPlaced(m, parent, name, obj, recordType, value, st, tree.Contents())
    {
      hide CatalogOk, Sorted, AsMap, HasKey, Tower, PlaceWanted, WithEntry, EntryPlaced;
      var key := Key(parent, name, obj);
      m := tree.Contents();
      PlacedRecords(m, parent, name, obj, recordType, value);
      HasRoot(m);
      PlaceKeeps(m, key, recordType, value);
      FitsIsPaired(m, key, recordType);
      PlaceExact(m, key, recordType, value);
      ghost var g;
      if NeedsIlink(key, recordType) {
        var ilink := Mirror(key);
        MirrorTwice(key);
        RoomAboveRoot(tree, ilink);
        RecordBounded(ilink, ILINK, [], tree.cfg.size);
        st, g := tree.Insert(Record(ilink, ILINK, []));
        if st != Ok {
          return;
        }
      }
      RoomAboveRoot(tree, key);
      RecordBounded(key, recordType, value, tree.cfg.size);
      st, g := tree.Insert(Record(key, recordType, value));
    }

    /** vdfs4_cattree_remove: what has the ilink's key first, then the record. Where both keys have one type each, an
    absent key gives ENOENT and changes nothing; so does the root directory, which has no ilink. */
    method Remove(obj: nat, parent: nat, name: Bytes, recordType: nat) returns (st: Status, ghost m: map<Key, Rec>)
      requires Valid()
      modifies tree
      ensures m == old(tree.Contents())
      ensures st == RemoveEffect(m, Key(parent, name, obj), recordType).st
      ensures st != Bug ==> tree.Valid() && tree.Contents() == RemoveEffect(m, Key(parent, name, obj), recordType).m
      ensures Harmless(m, Key(parent, name, obj), recordType) || EntryFits(m, Key(parent, name, obj), recordType) ==> st != Bug && Valid()
      ensures EntryFits(m, Key(parent, name, obj), recordType) ==>
                RemoveEffect(m, Key(parent, name, obj), recordType) == RemoveWanted(m, Key(parent, name, obj), recordType)
      ensures Harmless(m, Key(parent, name, obj), recordType) ==>
                EntryTaken(m, parent, name, obj, recordType, st, tree.Contents())
    {
      hide CatalogOk, Sorted, AsMap, HasKey, Tower, RemoveWanted, EntryTaken;
      var key := Key(parent, name, obj);
      m := tree.Contents();
      TakenHarmless(m, parent, name, obj, recordType);
      RemoveFacts(m, key, recordType);
      ghost var g, how;
      if NeedsIlink(key, recordType) {
        var ilink := Mirror(key);
        MirrorTwice(key);
        Alone(tree, ilink);
        st, g, how := tree.Remove(ilink);
        if st != Ok {
          return;
        }
      }
      Alone(tree, key);
      st, g, how := tree.Remove(key);
    }
  }

  lemma FitsIsPaired(m: map<Key, Rec>, k: Key, recordType: nat)
    requires CatalogOk(m) && EntryType(recordType)
    ensures EntryFits(m, k, recordType) && k != ROOT_KEY ==> Paired(m, k, recordType)
    ensures EntryFits(m, k, recordType) && NeedsIlink(k, recordType) && k != ROOT_KEY && k in m ==> Mirror(k) in m
  {
    if EntryFits(m, k, recordType) && k != ROOT_KEY && NeedsIlink(k, recordType) {
      BothOrNone(m, k, recordType);
    }
  }

  /** What RemoveEffect comes to for a catalog. */
  lemma RemoveFacts(m: map<Key, Rec>, k: Key, recordType: nat)
    requires CatalogOk(m)
    ensures var e := RemoveEffect(m, k, recordType);
      && (Harmless(m, k, recordType) ==> e.st != Bug && CatalogOk(e.m))
      && (EntryFits(m, k, recordType) ==> e.st != Bug && CatalogOk(e.m) && e == RemoveWanted(m, k, recordType))
  {
    hide CatalogOk, RemoveEffect, EntryFits, TypeFits;
    if Harmless(m, k, recordType) {
      RemoveKeeps(m, k, recordType);
    }
    if EntryFits(m, k, recordType) {
      if k == ROOT_KEY {
        RootStays(m, recordType);
      } else {
        FitsParts(m, k, recordType);
        RemoveExact(m, k, recordType);
        FitsHarmless(m, k, recordType);
        RemoveKeeps(m, k, recordType);
      }
    }
  }

  lemma TakenHarmless(m: map<Key, Rec>, parent: nat, name: Bytes, obj: nat, recordType: nat)
    requires CatalogOk(m)
    ensures var k := Key(parent, name, obj);
      Harmless(m, k, recordType) ==>
        RemoveEffect(m, k, recordType).st != Bug
        && EntryTaken(m, parent, name, obj, recordType, RemoveEffect(m, k, recordType).st, RemoveEffect(m, k, recordType).m)
  {
    var k := Key(parent, name, obj);
    if Harmless(m, k, recordType) {
      if recordType == HLINK || parent == obj {
        assert ROOT_KEY in m.Keys;
      } else {
        assert Other(m, ROOT_KEY, parent, name, obj);
        TakenRecords(m, parent, name, obj, recordType);
      }
    }
  }

  lemma FitsParts(m: map<Key, Rec>, k: Key, recordType: nat)
    requires EntryFits(m, k, recordType)
    ensures EntryType(recordType) && TypeFits(m, k, recordType)
  {
  }

  lemma RootStays(m: map<Key, Rec>, recordType: nat)
    requires CatalogOk(m) && EntryFits(m, ROOT_KEY, recordType)
    ensures RemoveEffect(m, ROOT_KEY, recordType) == Effect(ENOENT, m)
  {
    NoRootIlink(m);
  }

  /** The root record is no ilink. */
  lemma FitsHarmless(m: map<Key, Rec>, k: Key, recordType: nat)
    requires CatalogOk(m) && EntryFits(m, k, recordType) && k != ROOT_KEY
    ensures Harmless(m, k, recordType)
  {
  }

  lemma NotAtFloor(f: seq<Rec>, key: Key, g: int)
    requires Sorted(Cmp, f) && IsFloor(Cmp, f, key, g) && f[g].key != key
    ensures !HasKey(f, key)
  {
    CatalogOrder();
    if HasKey(f, key) {
      var j :| 0 <= j < |f| && f[j].key == key;
      CmpZero(key, key);
      if j < g {
        Flip(Cmp, f[g].key, key);
      }
    }
  }

  lemma AllAbove(f: seq<Rec>, key: Key)
    requires forall r :: r in f ==> Cmp(r.key, key) > 0
    ensures !HasKey(f, key)
  {
    CmpZero(key, key);
    forall j | 0 <= j < |f| ensures f[j].key != key {
      assert f[j] in f;
    }
  }

  lemma LiveAt(f: seq<Rec>, parent: nat, name: Bytes, g: nat)
    requires g < |f| && Named(f[g], parent, name) && !IsOrphan(f[g])
    ensures HasLive(f, parent, name)
  {
  }

  /** In a catalog, entries of directories other than the root's own are always found. */
  lemma NeverBlind(f: seq<Rec>, parent: nat, name: Bytes)
    requires Sorted(Cmp, f) && HasKey(f, ROOT_KEY) && parent > 0
    ensures !Blind(f, parent, name)
  {
    AboveRoot(f, Key(1, [], 0));
    CmpIsLexicographic(f[0].key, Key(1, [], 0));
    CatalogOrder();
    var j :| 0 <= j < |f| && f[j].key == ROOT_KEY;
    CmpIsLexicographic(f[0].key, ROOT_KEY);
    if j > 0 {
      assert Cmp(f[0].key, ROOT_KEY) < 0;
    }
  }

  lemma NeverBlindHere(t: Btree, parent: nat, name: Bytes)
    requires t.Valid() && t.cfg.cmp == Cmp
    ensures InCatalog(t.Contents(), parent) ==> !Blind(t.Records(), parent, name)
  {
    hide Sorted, AsMap, HasKey, Tower, Blind;
    if InCatalog(t.Contents(), parent) {
      HasRoot(t.Contents());
      TreeOrder(t);
      RootThere(t.Contents(), t.Records());
      NeverBlind(t.Records(), parent, name);
    }
  }

  /** The directory is one that a catalog can have entries for. */
  ghost predicate InCatalog(m: map<Key, Rec>, parent: nat) {
    CatalogOk(m) && parent > 0
  }

  /** Two records of one name, the second an orphan: a tree of these has a live record that is not found. */
  lemma BlindThere()
    ensures exists f, parent, name ::
              Sorted(Cmp, f) && PositiveIds(f, parent, name) && HasLive(f, parent, name) && Blind(f, parent, name)
  {
    var f := [Record(Key(5, [0x61], 7), FILE, [0, 0]), Record(Key(5, [0x61], 8), FILE, [0, 16])];
    SameNameCmp(5, [0x61], 7, 8);
    assert IsOrphan(f[1]) by { assert f[1].val.bytes[1] as int / 16 == 1; }
    assert Named(f[0], 5, [0x61]) && !IsOrphan(f[0]);
    assert Named(f[1], 5, [0x61]);
    assert Sorted(Cmp, f) && PositiveIds(f, 5, [0x61]) && HasLive(f, 5, [0x61]) && Blind(f, 5, [0x61]);
  }

  lemma HasRoot(m: map<Key, Rec>)
    requires CatalogOk(m)
    ensures ROOT_KEY in m && TypeOf(m[ROOT_KEY]) == FOLDER
  {
  }
}
