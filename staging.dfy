/** The S3 staging area and the Glacier vault (lambda_function.py:35-106, 146-155): the CSV
    object written for one table, its key, the bucket listing, the no-files check, the bundle
    uploaded to the vault and the clean-up of the staging prefix. */
module Staging {
  import opened Wrappers
  import opened Text
  import opened Calendar
  import opened Db

  /** One CSV record as csv.writer.writerow receives it: the header's column names or a row's
      cells. */
  type Record = seq<Cell>

  /** The contents of a staged object: its CSV records, in order. */
  type Blob = seq<Record>

  /** writer.writerow(columns): the header record. */
  function HeaderRecord(columns: seq<string>): seq<Cell> {
    if columns == [] then [] else [Str(columns[0])] + HeaderRecord(columns[1..])
  }

  /** Reads the column names back from a header record; None when a cell is not text. */
  function HeaderNames(r: Record): Option<seq<string>> {
    if r == [] then Some([])
    else if !r[0].Str? then None
    else
      match HeaderNames(r[1..])
      case None => None
      case Some(rest) => Some([r[0].text] + rest)
  }

  lemma {:induction false} HeaderRoundTrip(columns: seq<string>)
    ensures HeaderNames(HeaderRecord(columns)) == Some(columns)
  {
    if columns != [] {
      HeaderRoundTrip(columns[1..]);
      assert HeaderRecord(columns)[1..] == HeaderRecord(columns[1..]);
      assert columns == [columns[0]] + columns[1..];
    }
  }

  /** Reads a staged object back as the columns and the rows it was written from. */
  function ReadCsv(blob: Blob): Option<Extraction> {
    if blob == [] then None
    else
      match HeaderNames(blob[0])
      case None => None
      case Some(columns) => Some(Extraction(columns, blob[1..]))
  }

  /** The CSV object put_data_to_s3 writes, as a value. */
  function CsvOf(columns: seq<string>, data: seq<Row>): Blob {
    [HeaderRecord(columns)] + data
  }

  /** The body of put_data_to_s3's `with` block: the header, then one record per row. */
  method WriteCsv(columns: seq<string>, data: seq<Row>) returns (csv: Blob)
    ensures csv == CsvOf(columns, data)
    ensures ReadCsv(csv) == Some(Extraction(columns, data))
  {
    csv := [HeaderRecord(columns)];
    var i := 0;
    while i < |data|
      invariant 0 <= i <= |data|
      invariant csv == [HeaderRecord(columns)] + data[..i]
    {
      csv := csv + [data[i]];
      i := i + 1;
    }
    assert data[..i] == data;
    assert csv[1..] == data;
    HeaderRoundTrip(columns);
  }

  lemma CsvOfReadsBack(columns: seq<string>, data: seq<Row>)
    ensures ReadCsv(CsvOf(columns, data)) == Some(Extraction(columns, data))
  {
    HeaderRoundTrip(columns);
    assert CsvOf(columns, data)[1..] == data;
  }

  /** What the name of a staged object records: the table, then the date of its oldest value
      (put_data_to_s3's `date_to`), then the date of the cutoff (its `date_from`). */
  datatype ArchiveName = ArchiveName(table: string, oldest: Date, cutoff: Date)

  /** events_<table>_<oldest as %m.%d.%Y>_<cutoff as %m.%d.%Y>.csv */
  function ArchiveFilename(n: ArchiveName): string {
    "events_" + n.table + "_" + FormatDate(n.oldest) + "_" + FormatDate(n.cutoff) + ".csv"
  }

  /** Reads an archive file name back: the table is what lies between "events_" and the
      fixed-width tail of two dates and ".csv". */
  function ParseArchiveFilename(f: string): Option<ArchiveName> {
    if |f| < 33 || f[..7] != "events_" || f[|f| - 4..] != ".csv" then None
    else if f[|f| - 26] != '_' || f[|f| - 15] != '_' then None
    else
      match (ParseDate(f[|f| - 25..|f| - 15]), ParseDate(f[|f| - 14..|f| - 4]))
      case (Some(oldest), Some(cutoff)) => Some(ArchiveName(f[7..|f| - 26], oldest, cutoff))
      case _ => None
  }

  /** Where the pieces of a file name lie: the table after the 7-character "events_", then
      the two 10-character dates, each after a '_', then ".csv". */
  lemma FilenameLayout(table: string, a: string, b: string)
    requires |a| == 10 && |b| == 10
    ensures var f := "events_" + table + "_" + a + "_" + b + ".csv";
            && |f| == |table| + 33
            && f[..7] == "events_" && f[7..|f| - 26] == table
            && f[|f| - 26] == '_' && f[|f| - 25..|f| - 15] == a
            && f[|f| - 15] == '_' && f[|f| - 14..|f| - 4] == b
            && f[|f| - 4..] == ".csv"
  {
    var tail := "_" + a + "_" + b + ".csv";
    var f := "events_" + table + "_" + a + "_" + b + ".csv";
    assert f == "events_" + table + tail;
    assert f[|f| - 26..] == tail;
    assert tail[1..11] == a && tail[12..22] == b;
  }

  /** The file name determines the table and both dates. */
  lemma ArchiveFilenameRoundTrip(n: ArchiveName)
    ensures ParseArchiveFilename(ArchiveFilename(n)) == Some(n)
  {
    FilenameLayout(n.table, FormatDate(n.oldest), FormatDate(n.cutoff));
    ParseFormattedDate(n.oldest);
    ParseFormattedDate(n.cutoff);
  }

  lemma ArchiveFilenameInjective(m: ArchiveName, n: ArchiveName)
    requires ArchiveFilename(m) == ArchiveFilename(n)
    ensures m == n
  {
    ArchiveFilenameRoundTrip(m);
    ArchiveFilenameRoundTrip(n);
  }

  /** os.path.join(config.S3_ARCHIVE, filename). */
  function ArchiveKey(prefix: string, n: ArchiveName): string {
    PathJoin(prefix, ArchiveFilename(n))
  }

  /** A key under the staging prefix that is not a folder marker. */
  predicate IsFileUnder(key: string, prefix: string) {
    StartsWith(key, prefix) && !EndsWith(key, "/")
  }

  /** A file name holds a '/' only if its table name does. */
  lemma FilenameWithoutSlash(n: ArchiveName)
    requires '/' !in n.table
    ensures '/' !in ArchiveFilename(n)
  {
    var a, b := FormatDate(n.oldest), FormatDate(n.cutoff);
    assert '/' !in a && '/' !in b;
    var f := ArchiveFilename(n);
    assert f == "events_" + n.table + "_" + a + "_" + b + ".csv";
  }

  /** The key of a staged object lies under the prefix, is not a folder marker, and its last
      segment is the file name when the table name holds no '/'. */
  lemma ArchiveKeyShape(prefix: string, n: ArchiveName)
    ensures IsFileUnder(ArchiveKey(prefix, n), prefix)
    ensures '/' !in n.table ==> Basename(ArchiveKey(prefix, n)) == ArchiveFilename(n)
  {
    var f := ArchiveFilename(n);
    FilenameLayout(n.table, FormatDate(n.oldest), FormatDate(n.cutoff));
    assert f[0] == 'e' && f[|f| - 1] == 'v';
    PathJoinUnder(prefix, f);
    if '/' !in n.table {
      FilenameWithoutSlash(n);
      PathJoinParts(prefix, f);
    }
  }

  /** Different tables, or different dates, never share a key. */
  lemma ArchiveKeyInjective(prefix: string, m: ArchiveName, n: ArchiveName)
    requires ArchiveKey(prefix, m) == ArchiveKey(prefix, n)
    ensures m == n
  {
    var a, b := ArchiveFilename(m), ArchiveFilename(n);
    assert a[0] == 'e' && b[0] == 'e';
    PathJoinInjective(prefix, a, b);
    ArchiveFilenameInjective(m, n);
  }

  /** The order S3 lists keys in: ascending UTF-8 bytes, which is ascending code points. */
  predicate LexLess(a: string, b: string) {
    if a == [] then b != []
    else b != [] && (a[0] < b[0] || (a[0] == b[0] && LexLess(a[1..], b[1..])))
  }

  lemma {:induction false} LexAsymmetric(a: string, b: string)
    ensures !(LexLess(a, b) && LexLess(b, a))
  {
    if a != [] && b != [] && a[0] == b[0] {
      LexAsymmetric(a[1..], b[1..]);
    }
  }

  lemma {:induction false} LexTotal(a: string, b: string)
    ensures a == b || LexLess(a, b) || LexLess(b, a)
  {
    if a != [] && b != [] && a[0] == b[0] {
      LexTotal(a[1..], b[1..]);
      if a[1..] == b[1..] {
        assert a == [a[0]] + a[1..] && b == [b[0]] + b[1..];
      }
    }
  }

  lemma {:induction false} LexTransitive(a: string, b: string, c: string)
    requires LexLess(a, b) && LexLess(b, c)
    ensures LexLess(a, c)
  {
    if a != [] && a[0] == b[0] && b[0] == c[0] {
      LexTransitive(a[1..], b[1..], c[1..]);
    }
  }

  /** k comes before every other key of the set. */
  predicate IsLeast(k: string, keys: set<string>) {
    forall j :: j in keys && j != k ==> LexLess(k, j)
  }

  lemma {:induction false} LeastExists(keys: set<string>)
    requires keys != {}
    ensures exists k :: k in keys && IsLeast(k, keys)
    decreases |keys|
  {
    var x :| x in keys;
    var rest := keys - {x};
    if rest == {} {
      assert keys == {x};
      assert IsLeast(x, keys);
    } else {
      LeastExists(rest);
      var m :| m in rest && IsLeast(m, rest);
      LexTotal(x, m);
      if LexLess(x, m) {
        forall j | j in keys && j != x
          ensures LexLess(x, j)
        {
          if j != m {
            LexTransitive(x, m, j);
          }
        }
        assert IsLeast(x, keys);
      } else {
        assert IsLeast(m, keys);
      }
    }
  }

  lemma LeastUnique(keys: set<string>)
    ensures forall a, b :: a in keys && b in keys && IsLeast(a, keys) && IsLeast(b, keys) ==> a == b
  {
    forall a, b | a in keys && b in keys && IsLeast(a, keys) && IsLeast(b, keys)
      ensures a == b
    {
      LexAsymmetric(a, b);
    }
  }

  /** The first key of a set in listing order. */
  function Least(keys: set<string>): (k: string)
    requires keys != {}
    ensures k in keys && IsLeast(k, keys)
  {
    LeastExists(keys);
    LeastUnique(keys);
    var k :| k in keys && IsLeast(k, keys);
    k
  }

  /** A set of keys in listing order: each key once, strictly ascending. */
  function SortedKeys(keys: set<string>): (s: seq<string>)
    ensures forall k :: k in s <==> k in keys
    ensures forall i, j :: 0 <= i < j < |s| ==> LexLess(s[i], s[j])
    decreases |keys|
  {
    if keys == {} then []
    else
      var k := Least(keys);
      [k] + SortedKeys(keys - {k})
  }

  /** bucket.objects.filter(Prefix=prefix): every key that starts with the prefix, in
      listing order. */
  function Listing(objects: map<string, Blob>, prefix: string): (keys: seq<string>)
    ensures forall k :: k in keys <==> k in objects && StartsWith(k, prefix)
  {
    SortedKeys(set k | k in objects && StartsWith(k, prefix))
  }

  /** The keys a loop over the listing does not skip as folder markers. */
  function FileKeys(keys: seq<string>): (r: seq<string>)
    ensures forall k :: k in r <==> k in keys && !EndsWith(k, "/")
  {
    if keys == [] then []
    else if EndsWith(keys[0], "/") then FileKeys(keys[1..])
    else [keys[0]] + FileKeys(keys[1..])
  }

  /** Some object under the prefix is a file rather than a folder marker. */
  predicate HasFiles(objects: map<string, Blob>, prefix: string) {
    exists k :: k in objects && IsFileUnder(k, prefix)
  }

  /** The message of the NoFilesException raised by raise_if_no_files_found
      (os.path.join of one argument returns it unchanged). */
  function NoFilesMessage(prefix: string, bucketName: string): string {
    "No files found in " + prefix + " on S3 bucket " + bucketName
  }

  /** One member of the ZIP archive: its name and its bytes. */
  datatype Entry = Entry(name: string, content: Blob)

  /** The ZIP archive's members for a sequence of keys: each object under its last path
      segment. */
  function EntriesOf(objects: map<string, Blob>, keys: seq<string>): (entries: seq<Entry>)
    requires forall k :: k in keys ==> k in objects
    ensures |entries| == |keys|
  {
    if keys == [] then [] else [Entry(Basename(keys[0]), objects[keys[0]])] + EntriesOf(objects, keys[1..])
  }

  lemma {:induction false} FileKeysAppend(keys: seq<string>, key: string)
    ensures EndsWith(key, "/") ==> FileKeys(keys + [key]) == FileKeys(keys)
    ensures !EndsWith(key, "/") ==> FileKeys(keys + [key]) == FileKeys(keys) + [key]
  {
    if keys != [] {
      FileKeysAppend(keys[1..], key);
      assert (keys + [key])[1..] == keys[1..] + [key];
    }
  }

  lemma {:induction false} EntriesOfAppend(objects: map<string, Blob>, keys: seq<string>, key: string)
    requires forall k :: k in keys ==> k in objects
    requires key in objects
    ensures EntriesOf(objects, keys + [key]) == EntriesOf(objects, keys) + [Entry(Basename(key), objects[key])]
  {
    if keys != [] {
      EntriesOfAppend(objects, keys[1..], key);
      assert (keys + [key])[1..] == keys[1..] + [key];
    }
  }

  /** The loop of archive_old_data over a listing: folder markers skipped, every other object
      read under its last path segment. */
  method CollectFiles(objects: map<string, Blob>, keys: seq<string>) returns (entries: seq<Entry>)
    requires forall k :: k in keys ==> k in objects
    ensures entries == EntriesOf(objects, FileKeys(keys))
  {
    entries := [];
    var i := 0;
    while i < |keys|
      invariant 0 <= i <= |keys|
      invariant entries == EntriesOf(objects, FileKeys(keys[..i]))
    {
      var key := keys[i];
      FileKeysAppend(keys[..i], key);
      assert keys[..i + 1] == keys[..i] + [key];
      if !EndsWith(key, "/") {
        assert forall k :: k in FileKeys(keys[..i]) ==> k in keys;
        EntriesOfAppend(objects, FileKeys(keys[..i]), key);
        entries := entries + [Entry(Basename(key), objects[key])];
      }
      i := i + 1;
    }
    assert keys[..i] == keys;
  }

  /** What archive_old_data puts in the ZIP archive: every file under the prefix, in listing
      order. */
  function Bundle(objects: map<string, Blob>, prefix: string): seq<Entry> {
    EntriesOf(objects, FileKeys(Listing(objects, prefix)))
  }

  lemma {:induction false} EntriesOfMembers(objects: map<string, Blob>, keys: seq<string>)
    requires forall k :: k in keys ==> k in objects
    ensures forall e :: e in EntriesOf(objects, keys) <==>
              exists k :: k in keys && e == Entry(Basename(k), objects[k])
  {
    if keys != [] {
      EntriesOfMembers(objects, keys[1..]);
      forall e | e in EntriesOf(objects, keys)
        ensures exists k :: k in keys && e == Entry(Basename(k), objects[k])
      {
        if e != Entry(Basename(keys[0]), objects[keys[0]]) {
          assert e in EntriesOf(objects, keys[1..]);
          var k :| k in keys[1..] && e == Entry(Basename(k), objects[k]);
          assert k in keys;
        }
      }
      forall k | k in keys
        ensures Entry(Basename(k), objects[k]) in EntriesOf(objects, keys)
      {
        if k != keys[0] {
          assert k in keys[1..];
        }
      }
    }
  }

  /** The bundle holds exactly the files under the prefix, each under its last path segment:
      nothing staged is left out and nothing else gets in. */
  lemma BundleHoldsStagedFiles(objects: map<string, Blob>, prefix: string)
    ensures forall e :: e in Bundle(objects, prefix) <==>
              exists k :: k in objects && IsFileUnder(k, prefix) && e == Entry(Basename(k), objects[k])
  {
    var keys := FileKeys(Listing(objects, prefix));
    EntriesOfMembers(objects, keys);
  }

  /** The bucket after clean_s3: every file under the prefix deleted, folder markers and
      objects elsewhere kept. */
  function Cleaned(objects: map<string, Blob>, prefix: string): map<string, Blob> {
    map k | k in objects && !IsFileUnder(k, prefix) :: objects[k]
  }

  /** Cleaning leaves no file under the prefix, keeps everything else, and is idempotent. */
  lemma CleanedLeavesNoFiles(objects: map<string, Blob>, prefix: string)
    ensures !HasFiles(Cleaned(objects, prefix), prefix)
    ensures forall k :: k in objects && !IsFileUnder(k, prefix) ==>
              k in Cleaned(objects, prefix) && Cleaned(objects, prefix)[k] == objects[k]
    ensures Cleaned(Cleaned(objects, prefix), prefix) == Cleaned(objects, prefix)
  {
  }

  /** The S3 bucket: its objects by key. */
  class Bucket {
    var objects: map<string, Blob>

    constructor (objects: map<string, Blob>)
      ensures this.objects == objects
    {
      this.objects := objects;
    }

    /** s3.Object(bucket, key).put(Body=...): creates the object or replaces it. */
    method Put(key: string, blob: Blob)
      modifies this
      ensures objects == old(objects)[key := blob]
    {
      objects := objects[key := blob];
    }

    /** raise_if_no_files_found: walks the listing and returns at the first key that is not a
        folder marker; None when one exists, the NoFilesException message otherwise. */
    method RaiseIfNoFilesFound(prefix: string, bucketName: string) returns (failure: Option<string>)
      ensures failure.None? <==> HasFiles(objects, prefix)
      ensures failure.Some? ==> failure.value == NoFilesMessage(prefix, bucketName)
    {
      var keys := Listing(objects, prefix);
      var i := 0;
      while i < |keys|
        invariant 0 <= i <= |keys|
        invariant forall j :: 0 <= j < i ==> EndsWith(keys[j], "/")
      {
        if !EndsWith(keys[i], "/") {
          assert IsFileUnder(keys[i], prefix);
          return None;
        }
        i := i + 1;
      }
      assert !HasFiles(objects, prefix) by {
        forall k | k in objects && StartsWith(k, prefix)
          ensures EndsWith(k, "/")
        {
          assert k in keys;
        }
      }
      return Some(NoFilesMessage(prefix, bucketName));
    }

    /** archive_old_data's loop: reads every file under the prefix, in listing order. */
    method CollectBundle(prefix: string) returns (entries: seq<Entry>)
      ensures entries == Bundle(objects, prefix)
    {
      entries := CollectFiles(objects, Listing(objects, prefix));
    }

    /** clean_s3: deletes every file under the prefix, folder markers skipped. */
    method CleanArchive(prefix: string)
      modifies this
      ensures objects == Cleaned(old(objects), prefix)
    {
      var keys := Listing(objects, prefix);
      var i := 0;
      while i < |keys|
        invariant 0 <= i <= |keys|
        invariant forall k :: k in objects <==>
                    k in old(objects) && !(k in keys[..i] && !EndsWith(k, "/"))
        invariant forall k :: k in objects ==> objects[k] == old(objects)[k]
      {
        if !EndsWith(keys[i], "/") {
          objects := objects - {keys[i]};
        }
        i := i + 1;
      }
      assert keys[..i] == keys;
    }
  }

  /** The Glacier archive description archive_old_data passes. */
  const VAULT_DESCRIPTION := "events archive from rds"

  /** One Glacier archive: its description and the members of its ZIP body. */
  datatype Archive = Archive(description: string, entries: seq<Entry>)

  /** The Glacier vault: the archives uploaded to it, in order. */
  class Vault {
    var archives: seq<Archive>

    constructor (archives: seq<Archive>)
      ensures this.archives == archives
    {
      this.archives := archives;
    }

    /** glacier.upload_archive: stores one more archive and returns its id. */
    method UploadArchive(description: string, entries: seq<Entry>) returns (archiveId: nat)
      modifies this
      ensures archives == old(archives) + [Archive(description, entries)]
      ensures archiveId == |old(archives)|
    {
      archiveId := |archives|;
      archives := archives + [Archive(description, entries)];
    }
  }

  /** archive_old_data: bundles the staged files and uploads the bundle to the vault. */
  method ArchiveOldData(bucket: Bucket, vault: Vault, prefix: string) returns (archiveId: nat)
    modifies vault
    ensures vault.archives == old(vault.archives) + [Archive(VAULT_DESCRIPTION, Bundle(bucket.objects, prefix))]
    ensures archiveId == |old(vault.archives)|
  {
    var entries := bucket.CollectBundle(prefix);
    archiveId := vault.UploadArchive(VAULT_DESCRIPTION, entries);
  }
}
