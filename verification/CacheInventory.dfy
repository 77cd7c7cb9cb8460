/**
 The read-only inventory of a persistent cache directory
 (app/persistent_cache_maintenance.py, status; app/schemas/persistent_cache_status.py).
 */
module CacheInventory {
  import opened Wrappers
  import opened Hashing
  import opened Ordering

  datatype CacheKind = Embedding | Parsed

  datatype FileType = Regular | Folder | Special

  /** A file: its type, the stat fields the code compares, its bytes. */
  datatype File = File(fileType: FileType, size: nat, mtimeNs: int, inode: nat, content: string)

  /** One scanned name: the file lstat saw, and the one open found a moment later. */
  datatype Sighting = Sighting(name: string, listed: File, atOpen: Option<File>)

  datatype DirectoryAt = Missing | NotADirectory | Holding(scan: seq<Sighting>)

  datatype EntryInfo = EntryInfo(kind: CacheKind, filename: string, entryKey: string, sizeBytes: nat, mtimeNs: int)

  datatype InventoryError = UnsafePath | UnsafeTarget | InvalidEntryInfo

  datatype CacheStatus = CacheStatus(
    kind: CacheKind, directoryExists: bool, entries: seq<EntryInfo>,
    validCount: nat, validBytes: nat, corruptCount: nat, corruptBytes: nat, lockCount: nat, lockBytes: nat,
    temporaryCount: nat, temporaryBytes: nat, unknownCount: nat, unknownBytes: nat)

  /** _payload_is_valid: the bytes are an entry of this kind whose key is the expected one. */
  type Validity = (CacheKind, string, string) -> bool

  const ENTRY_SUFFIX: string := ".json"
  const LOCK_SUFFIX: string := ".lock"
  const TEMPORARY_MARK: string := ".json."
  const TEMPORARY_SUFFIX: string := ".tmp"
  const EMBEDDING_LOCK: string := ".embedding-cache.lock"

  function MaximumEntryBytes(kind: CacheKind): nat {
    match kind case Embedding => 8 * 1024 * 1024 case Parsed => 256 * 1024 * 1024
  }

  // ---------------------------------------------------------------- names

  predicate IsEntryName(name: string) {
    |name| == 69 && IsSha256Digest(name[..64]) && name[64..] == ENTRY_SUFFIX
  }

  predicate IsLockName(kind: CacheKind, name: string) {
    match kind
    case Embedding => name == EMBEDDING_LOCK
    case Parsed => |name| == 70 && name[0] == '.' && IsSha256Digest(name[1..65]) && name[65..] == LOCK_SUFFIX
  }

  predicate IsTemporaryName(name: string) {
    && |name| >= 76
    && name[0] == '.' && IsSha256Digest(name[1..65]) && name[65..71] == TEMPORARY_MARK
    && name[|name| - 4..] == TEMPORARY_SUFFIX && '.' !in name[71..|name| - 4]
  }

  /** The random part of a temporary name: at least one character, no dot. */
  predicate IsToken(token: string) {
    token != [] && '.' !in token
  }

  lemma {:induction false} TemporaryNameIsBuilt(name: string)
    ensures IsTemporaryName(name) <==>
            exists key, token | IsSha256Digest(key) && IsToken(token) :: name == "." + key + ".json." + token + ".tmp"
  {
    if IsTemporaryName(name) {
      var key, token := name[1..65], name[71..|name| - 4];
      assert name == name[..1] + key + name[65..71] + token + name[|name| - 4..];
      hide IsTemporaryName, IsSha256Digest;
      assert IsToken(token) && name == "." + key + ".json." + token + ".tmp";
    }
    if key, token :| IsSha256Digest(key) && IsToken(token) && name == "." + key + ".json." + token + ".tmp" {
      assert name[1..65] == key && name[65..71] == ".json." && name[71..|name| - 4] == token;
    }
  }

  /** The three shapes of names, as the writers of a cache put them together. */
  lemma {:induction false} NamesAreBuilt(kind: CacheKind, name: string)
    ensures IsEntryName(name) <==> exists key | IsSha256Digest(key) :: name == key + ".json"
    ensures IsLockName(kind, name) <==>
            if kind == Embedding then name == ".embedding-cache.lock"
            else exists key | IsSha256Digest(key) :: name == "." + key + ".lock"
    ensures IsTemporaryName(name) <==>
            exists key, token | IsSha256Digest(key) && IsToken(token) :: name == "." + key + ".json." + token + ".tmp"
  {
    hide IsTemporaryName;
    TemporaryNameIsBuilt(name);
    if IsEntryName(name) { assert name == name[..64] + ".json"; }
    if kind == Parsed && IsLockName(kind, name) { assert name == name[..1] + name[1..65] + name[65..]; }
  }

  /** No name has two of the shapes. */
  lemma NamesAreDisjoint(kind: CacheKind, name: string)
    ensures !(IsEntryName(name) && IsLockName(kind, name))
    ensures !(IsEntryName(name) && IsTemporaryName(name))
    ensures !(IsLockName(kind, name) && IsTemporaryName(name))
  {
    if IsEntryName(name) { assert name[..64][0] == name[0]; }
  }

  // ---------------------------------------------------------------- one target

  datatype Class = Valid | Corrupt | Lock | Temporary | Unknown | Changed

  predicate SameStat(a: File, b: File) {
    a.inode == b.inode && a.size == b.size && a.mtimeNs == b.mtimeNs
  }

  /** _entry_validity; None when the file vanished, was replaced or got shorter since it was listed. */
  function EntryValidity(kind: CacheKind, check: Validity, s: Sighting): Option<bool>
    requires IsEntryName(s.name)
  {
    if s.listed.size > MaximumEntryBytes(kind) then Some(false)
    else if s.atOpen.None? || !SameStat(s.atOpen.value, s.listed) || |s.atOpen.value.content| < s.listed.size then None
    else Some(check(kind, s.atOpen.value.content[..s.listed.size], s.name[..64]))
  }

  function ClassOf(kind: CacheKind, check: Validity, s: Sighting): (c: Class)
    ensures c.Valid? ==> IsEntryName(s.name)
  {
    if IsEntryName(s.name) then
      match EntryValidity(kind, check, s)
      case None => Changed
      case Some(true) => Valid
      case Some(false) => Corrupt
    else if IsLockName(kind, s.name) then Lock
    else if IsTemporaryName(s.name) then Temporary
    else Unknown
  }

  predicate Unsafe(kind: CacheKind, s: Sighting) {
    || !s.listed.fileType.Regular?
    || (IsEntryName(s.name) && s.listed.size <= MaximumEntryBytes(kind) && s.atOpen.Some?
        && !s.atOpen.value.fileType.Regular?)
  }

  /** What one target makes the scan raise, if anything: CacheEntryInfo refuses times before 1970. */
  function FailureOf(kind: CacheKind, check: Validity, s: Sighting): Option<InventoryError> {
    if Unsafe(kind, s) then Some(UnsafeTarget)
    else if ClassOf(kind, check, s).Valid? && s.listed.mtimeNs < 0 then Some(InvalidEntryInfo)
    else None
  }

  function InfoOf(kind: CacheKind, s: Sighting): EntryInfo
    requires IsEntryName(s.name)
  {
    EntryInfo(kind, s.name, s.name[..64], s.listed.size, s.listed.mtimeNs)
  }

  /** The file opened is the one listed, and still has the bytes that were listed. */
  predicate Unchanged(s: Sighting) {
    && s.atOpen.Some?
    && s.atOpen.value.inode == s.listed.inode && s.atOpen.value.size == s.listed.size
    && s.atOpen.value.mtimeNs == s.listed.mtimeNs
    && s.listed.size <= |s.atOpen.value.content|
  }

  /** 8 MiB for an embedding, 256 MiB for a parsed document. */
  predicate TooLarge(kind: CacheKind, size: nat) {
    size > if kind == Embedding then 8_388_608 else 268_435_456
  }

  /**
   What puts a target into each class: its name, and for an entry whether it is too large,
   changed while it was read, and holds what belongs under its key.
   */
  lemma ClassesMean(kind: CacheKind, check: Validity, s: Sighting)
    ensures var entry, large, c := IsEntryName(s.name), TooLarge(kind, s.listed.size), ClassOf(kind, check, s);
            && (c == Lock <==> IsLockName(kind, s.name))
            && (c == Temporary <==> IsTemporaryName(s.name))
            && (c == Unknown <==> !entry && !IsLockName(kind, s.name) && !IsTemporaryName(s.name))
            && (c == Changed <==> entry && !large && !Unchanged(s))
            && (c == Corrupt <==> entry && (large || (Unchanged(s) && !Holds(kind, check, s))))
            && (c == Valid <==> entry && !large && Unchanged(s) && Holds(kind, check, s))
  {
    NamesAreDisjoint(kind, s.name);
  }

  /** The listed bytes pass as an entry of this kind under the key in the name. */
  predicate Holds(kind: CacheKind, check: Validity, s: Sighting)
    requires IsEntryName(s.name) && Unchanged(s)
  {
    check(kind, s.atOpen.value.content[..s.listed.size], s.name[..64])
  }

  // ---------------------------------------------------------------- a whole scan

  /** The failure that ends the scan: the first one in scan order. */
  function FirstFailure(kind: CacheKind, check: Validity, scan: seq<Sighting>): (failure: Option<InventoryError>)
    ensures failure.None? <==> forall s | s in scan :: FailureOf(kind, check, s).None?
  {
    if scan == [] then None
    else if FailureOf(kind, check, scan[0]).Some? then FailureOf(kind, check, scan[0])
    else FirstFailure(kind, check, scan[1..])
  }

  /** Target i ends the scan: the directory holds a file that is none, or a valid entry from before 1970. */
  predicate EndsScan(kind: CacheKind, check: Validity, s: Sighting, e: InventoryError) {
    var special := !s.listed.fileType.Regular? || (IsEntryName(s.name) && !TooLarge(kind, s.listed.size)
                   && s.atOpen.Some? && !s.atOpen.value.fileType.Regular?);
    match e
    case UnsafeTarget => special
    case InvalidEntryInfo => !special && ClassOf(kind, check, s) == Valid && s.listed.mtimeNs < 0
    case UnsafePath => false
  }

  /** A scan fails with what the first failing target says, and only then. */
  lemma {:induction false} FirstFailureIsFirst(kind: CacheKind, check: Validity, scan: seq<Sighting>, e: InventoryError)
    ensures FirstFailure(kind, check, scan) == Some(e) <==>
            exists i | 0 <= i < |scan| ::
              EndsScan(kind, check, scan[i], e)
              && forall j, f | 0 <= j < i :: !EndsScan(kind, check, scan[j], f)
  {
    hide ClassOf;
    if scan != [] {
      FirstFailureIsFirst(kind, check, scan[1..], e);
      FailureEndsScan(kind, check, scan[0]);
      if FailureOf(kind, check, scan[0]).Some? {
        assert EndsScan(kind, check, scan[0], FailureOf(kind, check, scan[0]).value);
      } else {
        forall i | 0 <= i < |scan| && EndsScan(kind, check, scan[i], e) ensures i > 0 && scan[i] == scan[1..][i - 1] {
        }
      }
    }
  }

  lemma FailureEndsScan(kind: CacheKind, check: Validity, s: Sighting)
    ensures forall e :: FailureOf(kind, check, s) == Some(e) <==> EndsScan(kind, check, s, e)
  {
    hide ClassOf;
  }

  function EntriesOf(kind: CacheKind, check: Validity, scan: seq<Sighting>): seq<EntryInfo> {
    if scan == [] then []
    else
      (if ClassOf(kind, check, scan[0]).Valid? then [InfoOf(kind, scan[0])] else [])
      + EntriesOf(kind, check, scan[1..])
  }

  function Count(kind: CacheKind, check: Validity, c: Class, scan: seq<Sighting>): nat {
    if scan == [] then 0
    else (if ClassOf(kind, check, scan[0]) == c then 1 else 0) + Count(kind, check, c, scan[1..])
  }

  function Bytes(kind: CacheKind, check: Validity, c: Class, scan: seq<Sighting>): nat {
    if scan == [] then 0
    else (if ClassOf(kind, check, scan[0]) == c then scan[0].listed.size else 0) + Bytes(kind, check, c, scan[1..])
  }

  function EntryBytes(entries: seq<EntryInfo>): nat {
    if entries == [] then 0 else entries[0].sizeBytes + EntryBytes(entries[1..])
  }

  /** Oldest write first, ties by key. */
  predicate EntryLe(a: EntryInfo, b: EntryInfo) {
    a.mtimeNs < b.mtimeNs || (a.mtimeNs == b.mtimeNs && LexLe(a.entryKey, b.entryKey))
  }

  lemma EntryOrders()
    ensures TotalPreorder(EntryLe)
  {
    forall x, y ensures EntryLe(x, y) || EntryLe(y, x) { LexTotal(x.entryKey, y.entryKey); }
    forall x, y, z | EntryLe(x, y) && EntryLe(y, z) ensures EntryLe(x, z) {
      if x.mtimeNs == y.mtimeNs == z.mtimeNs { LexTransitive(x.entryKey, y.entryKey, z.entryKey); }
    }
  }

  function StatusOf(kind: CacheKind, check: Validity, scan: seq<Sighting>): CacheStatus {
    var entries := Sort(EntryLe, EntriesOf(kind, check, scan));
    CacheStatus(kind, true, entries, |entries|, EntryBytes(entries),
                Count(kind, check, Corrupt, scan), Bytes(kind, check, Corrupt, scan),
                Count(kind, check, Lock, scan), Bytes(kind, check, Lock, scan),
                Count(kind, check, Temporary, scan), Bytes(kind, check, Temporary, scan),
                Count(kind, check, Unknown, scan), Bytes(kind, check, Unknown, scan))
  }

  lemma ScanStep(kind: CacheKind, check: Validity, scan: seq<Sighting>, i: nat)
    requires i < |scan|
    ensures var c := ClassOf(kind, check, scan[i]);
            && EntriesOf(kind, check, scan[i..]) == (if c.Valid? then [InfoOf(kind, scan[i])] else [])
                + EntriesOf(kind, check, scan[i + 1..])
            && (forall d ::
                  Count(kind, check, d, scan[i..])
                  == (if c == d then 1 else 0) + Count(kind, check, d, scan[i + 1..]))
            && (forall d ::
                  Bytes(kind, check, d, scan[i..])
                  == (if c == d then scan[i].listed.size else 0) + Bytes(kind, check, d, scan[i + 1..]))
  {
    hide ClassOf, InfoOf;
    assert scan[i..][1..] == scan[i + 1..];
  }

  lemma FailureStep(kind: CacheKind, check: Validity, scan: seq<Sighting>, i: nat)
    requires i < |scan|
    ensures FirstFailure(kind, check, scan[i..]) ==
            if FailureOf(kind, check, scan[i]).Some? then FailureOf(kind, check, scan[i])
            else FirstFailure(kind, check, scan[i + 1..])
  {
    hide FailureOf;
    assert scan[i..][1..] == scan[i + 1..];
  }

  lemma ScanEnd(kind: CacheKind, check: Validity, scan: seq<Sighting>)
    ensures EntriesOf(kind, check, scan[|scan|..]) == [] && FirstFailure(kind, check, scan[|scan|..]) == None
    ensures forall d :: Count(kind, check, d, scan[|scan|..]) == 0 && Bytes(kind, check, d, scan[|scan|..]) == 0
  {
    var rest := scan[|scan|..];
    forall d ensures Count(kind, check, d, rest) == 0 && Bytes(kind, check, d, rest) == 0 {
      assert rest == [];
    }
  }

  /** The counters of one class after the first i targets. */
  predicate Tallied(kind: CacheKind, check: Validity, c: Class, scan: seq<Sighting>, i: nat, count: nat, bytes: nat)
    requires i <= |scan|
  {
    && count + Count(kind, check, c, scan[i..]) == Count(kind, check, c, scan)
    && bytes + Bytes(kind, check, c, scan[i..]) == Bytes(kind, check, c, scan)
  }

  lemma TallyStart(kind: CacheKind, check: Validity, scan: seq<Sighting>)
    ensures forall c :: Tallied(kind, check, c, scan, 0, 0, 0)
  {
    assert scan[0..] == scan;
  }

  lemma TallyNext(kind: CacheKind, check: Validity, c: Class, scan: seq<Sighting>, i: nat, count: nat, bytes: nat)
    requires i < |scan| && Tallied(kind, check, c, scan, i, count, bytes)
    ensures if ClassOf(kind, check, scan[i]) == c then Tallied(kind, check, c, scan, i + 1, count + 1, bytes
            + scan[i].listed.size)
            else Tallied(kind, check, c, scan, i + 1, count, bytes)
  {
    hide ClassOf, Count, Bytes, EntriesOf, InfoOf;
    ScanStep(kind, check, scan, i);
  }

  lemma TallyEnd(kind: CacheKind, check: Validity, c: Class, scan: seq<Sighting>, count: nat, bytes: nat)
    requires Tallied(kind, check, c, scan, |scan|, count, bytes)
    ensures count == Count(kind, check, c, scan) && bytes == Bytes(kind, check, c, scan)
  {
    hide ClassOf, Count, Bytes, EntriesOf;
    ScanEnd(kind, check, scan);
  }

  method Status(kind: CacheKind, check: Validity, at: DirectoryAt) returns (r: Result<CacheStatus, InventoryError>)
    ensures at.Missing? ==> r == Ok(CacheStatus(kind, false, [], 0, 0, 0, 0, 0, 0, 0, 0, 0, 0))
    ensures at.NotADirectory? ==> r == Err(UnsafePath)
    ensures at.Holding? ==>
              r == match FirstFailure(kind, check, at.scan)
                   case Some(error) => Err(error)
                   case None => Ok(StatusOf(kind, check, at.scan))
  {
    hide Unsafe, FirstFailure, ClassOf, InfoOf, EntryLe, EntriesOf, Count, Bytes, Tallied, Sort, EntryBytes;
    if at.Missing? { return Ok(CacheStatus(kind, false, [], 0, 0, 0, 0, 0, 0, 0, 0, 0, 0)); }
    if at.NotADirectory? { return Err(UnsafePath); }
    var scan := at.scan;
    var entries: seq<EntryInfo> := [];
    var corruptCount: nat, corruptBytes: nat, lockCount: nat, lockBytes: nat := 0, 0, 0, 0;
    var temporaryCount: nat, temporaryBytes: nat, unknownCount: nat, unknownBytes: nat := 0, 0, 0, 0;
    assert scan[0..] == scan;
    TallyStart(kind, check, scan);
    for i := 0 to |scan|
      invariant FirstFailure(kind, check, scan[i..]) == FirstFailure(kind, check, scan)
      invariant entries + EntriesOf(kind, check, scan[i..]) == EntriesOf(kind, check, scan)
      invariant Tallied(kind, check, Corrupt, scan, i, corruptCount, corruptBytes)
      invariant Tallied(kind, check, Lock, scan, i, lockCount, lockBytes)
      invariant Tallied(kind, check, Temporary, scan, i, temporaryCount, temporaryBytes)
      invariant Tallied(kind, check, Unknown, scan, i, unknownCount, unknownBytes)
    {
      var s := scan[i];
      FailureStep(kind, check, scan, i);
      if Unsafe(kind, s) { return Err(UnsafeTarget); }
      ScanStep(kind, check, scan, i);
      TallyNext(kind, check, Corrupt, scan, i, corruptCount, corruptBytes);
      TallyNext(kind, check, Lock, scan, i, lockCount, lockBytes);
      TallyNext(kind, check, Temporary, scan, i, temporaryCount, temporaryBytes);
      TallyNext(kind, check, Unknown, scan, i, unknownCount, unknownBytes);
      match ClassOf(kind, check, s)
      case Valid =>
        if s.listed.mtimeNs < 0 { return Err(InvalidEntryInfo); }
        entries := entries + [InfoOf(kind, s)];
      case Corrupt => corruptCount, corruptBytes := corruptCount + 1, corruptBytes + s.listed.size;
      case Lock => lockCount, lockBytes := lockCount + 1, lockBytes + s.listed.size;
      case Temporary => temporaryCount, temporaryBytes := temporaryCount + 1, temporaryBytes + s.listed.size;
      case Unknown => unknownCount, unknownBytes := unknownCount + 1, unknownBytes + s.listed.size;
      case Changed =>
    }
    ScanEnd(kind, check, scan);
    TallyEnd(kind, check, Corrupt, scan, corruptCount, corruptBytes);
    TallyEnd(kind, check, Lock, scan, lockCount, lockBytes);
    TallyEnd(kind, check, Temporary, scan, temporaryCount, temporaryBytes);
    TallyEnd(kind, check, Unknown, scan, unknownCount, unknownBytes);
    assert entries == EntriesOf(kind, check, scan);
    var ordered := Sort(EntryLe, entries);
    r := Ok(CacheStatus(kind, true, ordered, |ordered|, EntryBytes(ordered), corruptCount, corruptBytes,
                        lockCount, lockBytes, temporaryCount, temporaryBytes, unknownCount, unknownBytes));
  }

  // ---------------------------------------------------------------- what a status says

  lemma {:induction false} BytesOfInsert(e: EntryInfo, entries: seq<EntryInfo>)
    ensures EntryBytes(Insert(EntryLe, e, entries)) == e.sizeBytes + EntryBytes(entries)
  {
    if entries != [] && !EntryLe(e, entries[0]) { BytesOfInsert(e, entries[1..]); }
  }

  lemma {:induction false} BytesOfSort(entries: seq<EntryInfo>)
    ensures EntryBytes(Sort(EntryLe, entries)) == EntryBytes(entries)
  {
    if entries != [] {
      BytesOfSort(entries[1..]);
      BytesOfInsert(entries[0], Sort(EntryLe, entries[1..]));
    }
  }

  function Size(scan: seq<Sighting>): nat {
    if scan == [] then 0 else scan[0].listed.size + Size(scan[1..])
  }

  lemma {:induction false} ScanConserves(kind: CacheKind, check: Validity, scan: seq<Sighting>)
    ensures |EntriesOf(kind, check, scan)| + Count(kind, check, Corrupt, scan) + Count(kind, check, Lock, scan)
            + Count(kind, check, Temporary, scan) + Count(kind, check, Unknown, scan)
                + Count(kind, check, Changed, scan) == |scan|
    ensures EntryBytes(EntriesOf(kind, check, scan)) + Bytes(kind, check, Corrupt, scan)
            + Bytes(kind, check, Lock, scan)
            + Bytes(kind, check, Temporary, scan) + Bytes(kind, check, Unknown, scan)
                + Bytes(kind, check, Changed, scan) == Size(scan)
  {
    hide ClassOf, InfoOf, EntriesOf, Count, Bytes, EntryBytes;
    BytesOfList();
    if scan == [] {
      ScanEnd(kind, check, []);
    } else {
      ScanConserves(kind, check, scan[1..]);
      ScanStep(kind, check, scan, 0);
      assert scan[0..] == scan;
      var rest := EntriesOf(kind, check, scan[1..]);
      if ClassOf(kind, check, scan[0]).Valid? {
        BytesOfCons(InfoOf(kind, scan[0]), rest);
        InfoSize(kind, scan[0]);
      } else {
        assert [] + rest == rest;
      }
    }
  }

  lemma BytesOfList()
    ensures EntryBytes([]) == 0
  {
  }

  lemma BytesOfCons(e: EntryInfo, rest: seq<EntryInfo>)
    ensures EntryBytes([e] + rest) == e.sizeBytes + EntryBytes(rest)
  {
    assert ([e] + rest)[1..] == rest;
  }

  lemma InfoSize(kind: CacheKind, s: Sighting)
    requires IsEntryName(s.name)
    ensures InfoOf(kind, s).sizeBytes == s.listed.size
  {
  }

  /** The five classes and the entries that changed under the scan account for every listed file and byte. */
  lemma {:induction false} StatusConserves(kind: CacheKind, check: Validity, scan: seq<Sighting>)
    ensures var s := StatusOf(kind, check, scan);
            && s.validCount + s.corruptCount + s.lockCount + s.temporaryCount + s.unknownCount
               + Count(kind, check, Changed, scan) == |scan|
            && s.validBytes + s.corruptBytes + s.lockBytes + s.temporaryBytes + s.unknownBytes
               + Bytes(kind, check, Changed, scan) == Size(scan)
  {
    hide ClassOf, EntryLe, Count, Bytes, EntriesOf, EntryBytes, Size;
    ScanConserves(kind, check, scan);
    BytesOfSort(EntriesOf(kind, check, scan));
    SortPermutes(EntryLe, EntriesOf(kind, check, scan));
  }

  /** CacheStatus.validate_aggregates and the validation of its CacheEntryInfo entries. */
  predicate ConsistentStatus(s: CacheStatus) {
    && |s.entries| == s.validCount
    && EntryBytes(s.entries) == s.validBytes
    && (forall i | 0 <= i < |s.entries| ::
          s.entries[i].kind == s.kind && s.entries[i].filename == s.entries[i].entryKey + ENTRY_SUFFIX)
    && (forall e | e in s.entries :: e.mtimeNs >= 0)
  }

  lemma {:induction false} EntriesAreTheValidOnes(kind: CacheKind, check: Validity, scan: seq<Sighting>, e: EntryInfo)
    ensures e in EntriesOf(kind, check, scan) <==>
            exists s | s in scan :: ClassOf(kind, check, s).Valid? && e == InfoOf(kind, s)
  {
    hide InfoOf;
    if scan != [] {
      EntriesAreTheValidOnes(kind, check, scan[1..], e);
      assert scan == [scan[0]] + scan[1..];
    }
  }

  /** What the inventory says of an entry is what was listed of its file. */
  predicate Describes(e: EntryInfo, kind: CacheKind, t: Sighting) {
    && e.kind == kind && e.filename == t.name && t.name == e.entryKey + ".json"
    && e.sizeBytes == t.listed.size && e.mtimeNs == t.listed.mtimeNs
  }

  lemma InfoDescribes(kind: CacheKind, t: Sighting)
    requires IsEntryName(t.name)
    ensures Describes(InfoOf(kind, t), kind, t)
  {
    assert t.name == t.name[..64] + t.name[64..];
  }

  /** A scan lists exactly the valid entries, oldest write first, under names that are their keys. */
  lemma {:induction false} StatusListsValidEntries(kind: CacheKind, check: Validity, scan: seq<Sighting>)
    ensures var s := StatusOf(kind, check, scan);
            && Sorted(EntryLe, s.entries)
            && (forall e :: e in s.entries <==>
                  exists t | t in scan :: ClassOf(kind, check, t).Valid? && e == InfoOf(kind, t))
            && (ConsistentStatus(s) <==> forall e | e in s.entries :: e.mtimeNs >= 0)
  {
    hide ClassOf, EntryLe, Count, Bytes, EntriesOf, Sort, InfoOf, IsEntryName;
    var found := EntriesOf(kind, check, scan);
    var s := StatusOf(kind, check, scan);
    EntryOrders();
    SortSorts(EntryLe, found);
    SortPermutes(EntryLe, found);
    forall e
      ensures e in s.entries <==> exists t | t in scan :: ClassOf(kind, check, t).Valid? && e == InfoOf(kind, t)
    {
      EntriesAreTheValidOnes(kind, check, scan, e);
      assert e in s.entries <==> e in multiset(s.entries);
      assert e in found <==> e in multiset(found);
    }
    forall i | 0 <= i < |s.entries|
      ensures s.entries[i].kind == s.kind && s.entries[i].filename == s.entries[i].entryKey + ENTRY_SUFFIX
    {
      assert s.entries[i] in s.entries;
      var t :| t in scan && ClassOf(kind, check, t).Valid? && s.entries[i] == InfoOf(kind, t);
      InfoDescribes(kind, t);
    }
  }

  function OfClass(kind: CacheKind, check: Validity, c: Class): Sighting -> bool {
    (s: Sighting) => ClassOf(kind, check, s) == c
  }

  lemma OfClassStep(kind: CacheKind, check: Validity, c: Class, scan: seq<Sighting>)
    requires scan != []
    ensures var rest := Filter(OfClass(kind, check, c), scan[1..]);
            Filter(OfClass(kind, check, c), scan) ==
            if ClassOf(kind, check, scan[0]) == c then [scan[0]] + rest else rest
  {
    hide ClassOf;
    assert scan == [scan[0]] + scan[1..];
  }

  lemma {:induction false} TallyIsOfClass(kind: CacheKind, check: Validity, c: Class, scan: seq<Sighting>)
    ensures Count(kind, check, c, scan) == |Filter(OfClass(kind, check, c), scan)|
    ensures Bytes(kind, check, c, scan) == Size(Filter(OfClass(kind, check, c), scan))
  {
    hide ClassOf;
    if scan != [] {
      TallyIsOfClass(kind, check, c, scan[1..]);
      OfClassStep(kind, check, c, scan);
      var rest := Filter(OfClass(kind, check, c), scan[1..]);
      assert ([scan[0]] + rest)[1..] == rest;
    }
  }

  lemma {:induction false} EntriesAreOfClass(kind: CacheKind, check: Validity, scan: seq<Sighting>)
    ensures |EntriesOf(kind, check, scan)| == |Filter(OfClass(kind, check, Valid), scan)|
  {
    hide ClassOf;
    if scan != [] {
      EntriesAreOfClass(kind, check, scan[1..]);
      OfClassStep(kind, check, Valid, scan);
    }
  }

  /** Every counter counts its own class, and the bytes are the listed sizes of the same files. */
  lemma {:induction false} StatusCounts(kind: CacheKind, check: Validity, scan: seq<Sighting>)
    ensures var s := StatusOf(kind, check, scan);
            && s.kind == kind && s.directoryExists && s.validCount == |s.entries|
            && s.corruptCount == |Filter(OfClass(kind, check, Corrupt), scan)|
            && s.corruptBytes == Size(Filter(OfClass(kind, check, Corrupt), scan))
            && s.lockCount == |Filter(OfClass(kind, check, Lock), scan)|
            && s.lockBytes == Size(Filter(OfClass(kind, check, Lock), scan))
            && s.temporaryCount == |Filter(OfClass(kind, check, Temporary), scan)|
            && s.temporaryBytes == Size(Filter(OfClass(kind, check, Temporary), scan))
            && s.unknownCount == |Filter(OfClass(kind, check, Unknown), scan)|
            && s.unknownBytes == Size(Filter(OfClass(kind, check, Unknown), scan))
  {
    hide ClassOf, Filter, Size, Count, Bytes, EntriesOf, EntryBytes, Sort, EntryLe;
    TallyIsOfClass(kind, check, Corrupt, scan);
    TallyIsOfClass(kind, check, Lock, scan);
    TallyIsOfClass(kind, check, Temporary, scan);
    TallyIsOfClass(kind, check, Unknown, scan);
  }

  /**
   The entries of a status are the valid files as they were listed, the oldest write first, and
   among writes of one moment in the order of their keys.
   */
  lemma {:induction false} EntriesAreListedOldestFirst(kind: CacheKind, check: Validity, scan: seq<Sighting>)
    ensures var entries := StatusOf(kind, check, scan).entries;
            && (forall i, j | 0 <= i < j < |entries| ::
                  || entries[i].mtimeNs < entries[j].mtimeNs
                  || (entries[i].mtimeNs == entries[j].mtimeNs && LexLe(entries[i].entryKey, entries[j].entryKey)))
            && (forall e | e in entries ::
                  exists t | t in scan :: ClassOf(kind, check, t) == Valid && Describes(e, kind, t))
            && (forall t | t in scan && ClassOf(kind, check, t) == Valid ::
                  exists e | e in entries :: Describes(e, kind, t))
            && |entries| == |Filter(OfClass(kind, check, Valid), scan)|
  {
    hide ClassOf, LexLe, Count, Bytes, EntriesOf, Sort, Filter, InfoOf, Describes, ConsistentStatus;
    StatusListsValidEntries(kind, check, scan);
    var entries := StatusOf(kind, check, scan).entries;
    forall t | t in scan && ClassOf(kind, check, t) == Valid
      ensures InfoOf(kind, t) in entries && Describes(InfoOf(kind, t), kind, t)
    {
      InfoDescribes(kind, t);
    }
    SortPermutes(EntryLe, EntriesOf(kind, check, scan));
    EntriesAreOfClass(kind, check, scan);
  }

  /** A status that is returned satisfies its own validator. */
  lemma {:induction false} ReturnedStatusIsConsistent(kind: CacheKind, check: Validity, scan: seq<Sighting>)
    requires FirstFailure(kind, check, scan).None?
    ensures ConsistentStatus(StatusOf(kind, check, scan))
  {
    hide ClassOf, EntryLe, StatusOf, ConsistentStatus, FirstFailure;
    StatusListsValidEntries(kind, check, scan);
    var s := StatusOf(kind, check, scan);
    forall e | e in s.entries ensures e.mtimeNs >= 0 {
      var t :| t in scan && ClassOf(kind, check, t).Valid? && e == InfoOf(kind, t);
      assert FailureOf(kind, check, t).None?;
    }
  }
}
