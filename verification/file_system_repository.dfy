/** models/file_system_git_repository.rb: Git's loose-object layout.
    An object is stored as the frame `"<type> <size>\0<payload>"` under the
    SHA1 of that frame; tree payloads are `"<mode> <name>\0<20-byte hash>"`
    records and commit payloads are labelled header rows, a blank row and
    the subject. Object files are kept uncompressed here, keyed by the hash
    that names them (`objects/<first two>/<other 38>`). */
module FileSystemRepository {

  import opened Results
  import opened Text
  import opened Sha1Util
  import opened Modes
  import opened ObjectData

  // ---------------------------------------------------------------------------
  // Object frames

  /** The header regex `(\w+) (\d+)` can start matching at `i`: a word run
      from `i`, a space, a digit. (A word run can only be followed by the
      space where it ends, so the greedy `\w+` never backtracks.) */
  predicate HeaderMatchesAt(h: string, i: nat) {
    i < |h| && IsWordChar(h[i]) &&
    var j := WordEnd(h, i);
    j + 1 < |h| && h[j] == ' ' && IsDigit(h[j + 1])
  }

  /** The two captures of a match at `i`. */
  function HeaderCaptures(h: string, i: nat): (string, string)
    requires HeaderMatchesAt(h, i)
  {
    var j := WordEnd(h, i);
    (h[i..j], h[j + 1..DigitEnd(h, j + 1)])
  }

  /** Where `header =~ /(\w+) (\d+)/` matches, searching from `i`: the
      leftmost position at which a match starts. */
  function HeaderMatchFrom(h: string, i: nat): (r: Option<nat>)
    requires i <= |h|
    ensures r.None? <==> forall k :: i <= k < |h| ==> !HeaderMatchesAt(h, k)
    ensures r.Some? ==> i <= r.value < |h| && HeaderMatchesAt(h, r.value)
    ensures r.Some? ==> forall k :: i <= k < r.value ==> !HeaderMatchesAt(h, k)
    decreases |h| - i
  {
    if i == |h| then None
    else if HeaderMatchesAt(h, i) then Some(i)
    else HeaderMatchFrom(h, i + 1)
  }

  /** The type and size captured by the leftmost match, if any. */
  function HeaderMatch(h: string): Option<(string, string)> {
    match HeaderMatchFrom(h, 0)
    case None => None
    case Some(k) => Some(HeaderCaptures(h, k))
  }

  /** `parse_object`: split at the first NUL; the header gives the type and
      the size (both nil when the header does not match), the rest is the
      payload. Without a NUL, `nil + 1` raises. */
  function ParseObject(raw: string): (r: Result<(Option<string>, Option<nat>, string)>)
    ensures r.Failure? <==> '\0' !in raw
    ensures r.Failure? ==> r.error == NoMethodError
    ensures r.Success? ==> exists n :: 0 <= n < |raw| && raw[n] == '\0' && '\0' !in raw[..n] && r.value.2 == raw[n + 1..]
  {
    match IndexOf(raw, '\0')
    case None => Failure(NoMethodError)
    case Some(n) =>
      var data := raw[n + 1..];
      match HeaderMatch(raw[..n])
      case None => Success((None, None, data))
      case Some(caps) => Success((Some(caps.0), Some(DigitsValue(caps.1)), data))
  }

  /** The frame `create_git_object!` stores: `"#{type} #{data.size}\0" + data`. */
  function Frame(objectType: string, data: string): string {
    objectType + " " + Decimal(|data|) + "\0" + data
  }

  /** A type symbol that the header regex reads back whole. */
  predicate IsTypeWord(t: string) {
    |t| > 0 && AllWordChars(t)
  }

  /** The header of a frame matches at its start, capturing the type and
      the printed size. */
  lemma HeaderOfFrame(t: string, n: nat)
    requires IsTypeWord(t)
    ensures HeaderMatch(t + " " + Decimal(n)) == Some((t, Decimal(n)))
  {
    var digits := Decimal(n);
    var h := t + " " + digits;
    assert forall k :: 0 <= k < |t| ==> IsWordChar(h[k]) by {
      forall k | 0 <= k < |t|
        ensures IsWordChar(h[k])
      {
        assert h[k] == t[k];
      }
    }
    WordEndAt(h, 0, |t|);
    assert forall k :: |t| + 1 <= k < |h| ==> IsDigit(h[k]) by {
      forall k | |t| + 1 <= k < |h|
        ensures IsDigit(h[k])
      {
        assert h[k] == digits[k - |t| - 1];
      }
    }
    DigitEndAt(h, |t| + 1, |h|);
    assert HeaderMatchesAt(h, 0);
    assert h[0..|t|] == t;
    assert h[|t| + 1..|h|] == digits;
  }

  /** A frame's first NUL is the one after its header. */
  lemma FirstNulOfFrame(t: string, data: string)
    requires IsTypeWord(t)
    ensures var h := t + " " + Decimal(|data|);
      Frame(t, data) == h + "\0" + data && IndexOf(Frame(t, data), '\0') == Some(|h|)
  {
    var digits := Decimal(|data|);
    var h := t + " " + digits;
    var raw := Frame(t, data);
    assert raw == h + "\0" + data;
    assert '\0' !in raw[..|h|] by {
      assert raw[..|h|] == h;
      forall k | 0 <= k < |h|
        ensures h[k] != '\0'
      {
        if k < |t| {
          assert h[k] == t[k] && IsWordChar(t[k]);
        } else if k > |t| {
          assert h[k] == digits[k - |t| - 1];
        }
      }
    }
    IndexOfAt(raw, '\0', |h|);
  }

  /** Parsing a frame gives back its type, the payload's size and the payload. */
  lemma ParseFrame(t: string, data: string)
    requires IsTypeWord(t)
    ensures ParseObject(Frame(t, data)) == Success((Some(t), Some(|data|), data))
  {
    var h := t + " " + Decimal(|data|);
    var raw := Frame(t, data);
    FirstNulOfFrame(t, data);
    assert raw[..|h|] == h && raw[|h| + 1..] == data;
    HeaderOfFrame(t, |data|);
    DecimalRoundTrip(|data|);
  }

  lemma FrameHasNul(objectType: string, data: string)
    ensures '\0' in Frame(objectType, data)
  {
    var h := objectType + " " + Decimal(|data|);
    assert Frame(objectType, data)[|h|] == '\0';
  }

  /** Object files by hash; each holds an uncompressed frame. */
  type Objects = map<string, string>

  /** Every stored file holds a frame: something with a NUL in it. */
  predicate Framed(objects: Objects) {
    forall k :: k in objects ==> '\0' in objects[k]
  }

  /** Every stored frame sits under its own digest. */
  predicate ContentAddressed(objects: Objects, digest: string -> string) {
    forall k :: k in objects ==> digest(objects[k]) == k
  }

  /** `create_git_object!`: the hash of the frame, and the store with the
      frame written unless a file for that hash already exists. */
  function CreateGitObject(objects: Objects, digest: string -> string, objectType: string, data: string): (r: (string, Objects))
    ensures r.0 == digest(Frame(objectType, data))
    ensures r.0 in r.1 && r.1.Keys == objects.Keys + {r.0}
    ensures forall k :: k in objects ==> r.1[k] == objects[k]
    ensures r.0 !in objects ==> r.1[r.0] == Frame(objectType, data)
    ensures ContentAddressed(objects, digest) ==> ContentAddressed(r.1, digest)
    ensures Framed(objects) ==> Framed(r.1)
  {
    var raw := Frame(objectType, data);
    var sha1 := digest(raw);
    FrameHasNul(objectType, data);
    if sha1 in objects then (sha1, objects) else (sha1, objects[sha1 := raw])
  }

  /** Creating the same object twice changes nothing the second time. */
  lemma CreateGitObjectIdempotent(objects: Objects, digest: string -> string, objectType: string, data: string)
    ensures var (sha1, after) := CreateGitObject(objects, digest, objectType, data);
            CreateGitObject(after, digest, objectType, data) == (sha1, after)
  {
  }

  /** `load_object`: a missing file raises MissingObjectError; otherwise the
      parsed frame, together with the digest of the whole frame. */
  function LoadObject(objects: Objects, digest: string -> string, sha1: string): (r: Result<ObjectInfo>)
    ensures sha1 !in objects ==> r == Failure(MissingObjectError)
    ensures r.Success? ==> sha1 in objects && r.value.contentSha1 == digest(objects[sha1]) && r.value.data.Bytes?
    ensures ContentAddressed(objects, digest) && r.Success? ==> r.value.contentSha1 == sha1
    ensures Framed(objects) && sha1 in objects ==> r.Success?
  {
    if sha1 !in objects then Failure(MissingObjectError)
    else
      var raw := objects[sha1];
      var parsed :- ParseObject(raw);
      Success(ObjectInfo(parsed.0, parsed.1, Bytes(parsed.2), digest(raw)))
  }

  /** Loading what was just created succeeds under the hash creation
      returned, and gives back the type, size and payload when the object
      was new. */
  lemma LoadCreatedObject(objects: Objects, digest: string -> string, objectType: string, data: string)
    requires IsTypeWord(objectType)
    requires Framed(objects)
    requires ContentAddressed(objects, digest)
    ensures var (sha1, after) := CreateGitObject(objects, digest, objectType, data);
            var r := LoadObject(after, digest, sha1);
            r.Success? && r.value.contentSha1 == sha1 &&
            (sha1 !in objects ==> r.value == ObjectInfo(Some(objectType), Some(|data|), Bytes(data), sha1))
  {
    var (sha1, after) := CreateGitObject(objects, digest, objectType, data);
    if sha1 !in objects {
      ParseFrame(objectType, data);
    }
  }

  // ---------------------------------------------------------------------------
  // Tree payloads

  /** A record `parse_tree_data` can read: a non-empty all-digit mode, a
      non-empty NUL-free name and a 20-byte hash. */
  predicate WellFormedRecord(row: TreeRow) {
    row.mode.Some? && |row.mode.value| > 0 && AllDigits(row.mode.value) &&
    |row.name| > 0 && '\0' !in row.name &&
    |row.sha1| == 20 && IsByteString(row.sha1)
  }

  predicate WellFormedRecords(rows: seq<TreeRow>) {
    forall i :: 0 <= i < |rows| ==> WellFormedRecord(rows[i])
  }

  /** Rows that all carry a mode, so that they can be written out. */
  predicate HaveModes(rows: seq<TreeRow>) {
    forall i :: 0 <= i < |rows| ==> rows[i].mode.Some?
  }

  /** The bytes of one record: `"<mode> <name>\0<hash>"`. */
  function RecordText(row: TreeRow): string
    requires row.mode.Some?
  {
    row.mode.value + " " + row.name + "\0" + row.sha1
  }

  /** The records one after the other. */
  function RecordsText(rows: seq<TreeRow>): string
    requires HaveModes(rows)
    decreases |rows|
  {
    if |rows| == 0 then "" else RecordText(rows[0]) + RecordsText(rows[1..])
  }

  /** `mode.size + name.size + 22`, summed over the rows. */
  function TotalBytes(rows: seq<TreeRow>): int
    decreases |rows|
  {
    if |rows| == 0 then 0
    else |rows[0].mode.GetOr("")| + |rows[0].name| + 22 + TotalBytes(rows[1..])
  }

  /** Where a match of the record regex ends, and that its record is one
      `parse_tree_data` can read. */
  predicate MatchBounds(s: string, i: nat, r: Option<(TreeRow, nat)>) {
    r.Some? ==> i < r.value.1 <= |s| && WellFormedRecord(r.value.0)
  }

  /** What a match of the record regex captures: the matched bytes are the
      record's text. */
  predicate MatchedRecord(s: string, i: nat, r: Option<(TreeRow, nat)>) {
    r.Some? ==>
      var (row, e) := r.value;
      i < e <= |s| && WellFormedRecord(row) && s[i..e] == RecordText(row) && e - i == TotalBytes([row])
  }

  /** The regex `(\d+) ([^\0]+)\0([\x00-\xFF]{20})` tried at `i`: the
      record it captures and the position after it. The digit run stops
      only at a non-digit and the name only at the first NUL, so the match
      never backtracks: it is decided by where the mode's digits end. */
  function RecordMatch(s: string, i: nat): (r: Option<(TreeRow, nat)>)
    requires i <= |s|
    ensures MatchBounds(s, i, r)
  {
    if i == |s| || !IsDigit(s[i]) then None else RecordAfterMode(s, i, DigitEnd(s, i))
  }

  /** The rest of a match whose mode is `s[i..j]`: a space, then a name up
      to the first NUL. */
  function RecordAfterMode(s: string, i: nat, j: nat): (r: Option<(TreeRow, nat)>)
    requires i < j <= |s| && AllDigits(s[i..j])
    ensures MatchBounds(s, i, r)
  {
    if j == |s| || s[j] != ' ' then None
    else
      match IndexOf(s[j + 1..], '\0')
      case None => None
      case Some(n) =>
        NulFreePrefix(s, j, n);
        RecordAfterName(s, i, j, j + 1 + n)
  }

  lemma NulFreePrefix(s: string, j: nat, n: nat)
    requires j < |s| && n < |s[j + 1..]| && '\0' !in s[j + 1..][..n]
    ensures '\0' !in s[j + 1..j + 1 + n]
  {
    assert s[j + 1..j + 1 + n] == s[j + 1..][..n];
  }

  /** The rest of a match whose name ends at the NUL at `k`: the name must
      be non-empty and 20 bytes must follow. */
  function RecordAfterName(s: string, i: nat, j: nat, k: nat): (r: Option<(TreeRow, nat)>)
    requires i < j < k < |s| && AllDigits(s[i..j]) && s[j] == ' ' && s[k] == '\0' && '\0' !in s[j + 1..k]
    ensures MatchBounds(s, i, r)
  {
    if k == j + 1 || k + 21 > |s| || !IsByteString(s[k + 1..k + 21]) then None
    else Some((TreeRow(Some(s[i..j]), s[j + 1..k], s[k + 1..k + 21]), k + 21))
  }

  /** A match after the name covers exactly the record's text. */
  lemma RecordAfterNameText(s: string, i: nat, j: nat, k: nat)
    requires i < j < k < |s| && AllDigits(s[i..j]) && s[j] == ' ' && s[k] == '\0' && '\0' !in s[j + 1..k]
    ensures MatchedRecord(s, i, RecordAfterName(s, i, j, k))
  {
    var r := RecordAfterName(s, i, j, k);
    if r.Some? {
      var row := r.value.0;
      assert s[i..k + 21] == s[i..j] + " " + s[j + 1..k] + "\0" + s[k + 1..k + 21];
      assert s[i..k + 21] == RecordText(row);
    }
  }

  lemma RecordAfterModeText(s: string, i: nat, j: nat)
    requires i < j <= |s| && AllDigits(s[i..j])
    ensures MatchedRecord(s, i, RecordAfterMode(s, i, j))
  {
    if j < |s| && s[j] == ' ' {
      var n := IndexOf(s[j + 1..], '\0');
      if n.Some? {
        NulFreePrefix(s, j, n.value);
        RecordAfterNameText(s, i, j, j + 1 + n.value);
      }
    }
  }

  /** Every match of the record regex covers exactly its record's text. */
  lemma RecordMatchText(s: string, i: nat)
    requires i <= |s|
    ensures MatchedRecord(s, i, RecordMatch(s, i))
  {
    if i < |s| && IsDigit(s[i]) {
      RecordAfterModeText(s, i, DigitEnd(s, i));
    }
  }

  /** `data.scan(...)` from `pos`: each match, then the search resumes after it. */
  function ScanRecords(s: string, pos: nat): (rows: seq<TreeRow>)
    requires pos <= |s|
    ensures WellFormedRecords(rows)
    decreases |s| - pos
  {
    if pos == |s| then []
    else
      var m := RecordMatch(s, pos);
      if m.Some? then [m.value.0] + ScanRecords(s, m.value.1) else ScanRecords(s, pos + 1)
  }

  /** The scanned records never add up to more than the bytes scanned, and
      they add up to exactly those bytes only when they tile them. */
  lemma {:induction false} ScanRecordsTotal(s: string, pos: nat)
    requires pos <= |s|
    ensures TotalBytes(ScanRecords(s, pos)) <= |s| - pos
    ensures TotalBytes(ScanRecords(s, pos)) == |s| - pos ==> RecordsText(ScanRecords(s, pos)) == s[pos..]
    decreases |s| - pos
  {
    if pos < |s| {
      var m := RecordMatch(s, pos);
      if m.Some? {
        var row, e := m.value.0, m.value.1;
        RecordMatchText(s, pos);
        ScanRecordsTotal(s, e);
        ScanRecordsStep(s, pos, row, e);
        RecordsCons(row, ScanRecords(s, e));
        SliceSplit(s, pos, e);
      } else {
        ScanRecordsNoMatch(s, pos);
        ScanRecordsTotal(s, pos + 1);
      }
    }
  }

  lemma ScanRecordsNoMatch(s: string, pos: nat)
    requires pos < |s| && RecordMatch(s, pos).None?
    ensures ScanRecords(s, pos) == ScanRecords(s, pos + 1)
  {
  }

  /** One record in front of others adds its bytes and its text. */
  lemma RecordsCons(row: TreeRow, rest: seq<TreeRow>)
    requires row.mode.Some? && HaveModes(rest)
    ensures HaveModes([row] + rest)
    ensures TotalBytes([row] + rest) == TotalBytes([row]) + TotalBytes(rest)
    ensures RecordsText([row] + rest) == RecordText(row) + RecordsText(rest)
  {
    assert ([row] + rest)[1..] == rest;
    assert [row][1..] == [];
  }


  /** `parse_tree_data`: the scanned records, or InvalidTreeData when they
      do not account for every byte of the payload. */
  function ParseTreeData(s: string): (r: Result<seq<TreeRow>>)
    ensures r.Failure? ==> r.error == InvalidTreeData
    ensures r.Success? ==> WellFormedRecords(r.value) && RecordsText(r.value) == s
  {
    var rows := ScanRecords(s, 0);
    ScanRecordsTotal(s, 0);
    if TotalBytes(rows) != |s| then Failure(InvalidTreeData) else Success(rows)
  }

  /** Where the parts of a record's text sit. */
  lemma RecordTextParts(row: TreeRow)
    requires row.mode.Some?
    ensures var mode := row.mode.value; var text := RecordText(row); var n := |mode| + 1 + |row.name|;
      |text| == n + 1 + |row.sha1| &&
      text[..|mode|] == mode && text[|mode|] == ' ' && text[|mode| + 1..n] == row.name && text[n] == '\0' &&
      text[n + 1..] == row.sha1
  {
  }

  /** Where the parts of a record's text sit once it is placed at `pos`. */
  lemma RecordTextAt(s: string, pos: nat, row: TreeRow)
    requires WellFormedRecord(row)
    requires pos + |RecordText(row)| <= |s| && s[pos..pos + |RecordText(row)|] == RecordText(row)
    ensures var j := pos + |row.mode.value|;
      var k := j + 1 + |row.name|;
      k + 21 == pos + |RecordText(row)| &&
      s[pos..j] == row.mode.value && s[j] == ' ' &&
      s[j + 1..k] == row.name && s[k] == '\0' &&
      s[k + 1..k + 21] == row.sha1
  {
    var mode := row.mode.value;
    var text := RecordText(row);
    var j := pos + |mode|;
    var k := j + 1 + |row.name|;
    var n := |mode| + 1 + |row.name|;
    RecordTextParts(row);
    SliceOfSlice(s, pos, |text|, 0, |mode|);
    SliceOfSlice(s, pos, |text|, |mode| + 1, n);
    SliceOfSlice(s, pos, |text|, n + 1, |text|);
    assert s[j] == text[|mode|];
    assert s[k] == text[n];
  }

  /** The first NUL after position `j` is the one at `k`. */
  lemma FirstNulAfter(s: string, j: nat, k: nat)
    requires j < k < |s| && s[k] == '\0'
    requires forall m :: j < m < k ==> s[m] != '\0'
    ensures IndexOf(s[j + 1..], '\0') == Some(k - j - 1)
  {
    var t := s[j + 1..];
    var name := t[..k - j - 1];
    assert t[k - j - 1] == '\0';
    assert '\0' !in name by {
      forall m | 0 <= m < |name|
        ensures name[m] != '\0'
      {
        assert name[m] == s[j + 1 + m];
      }
    }
    IndexOfAt(t, '\0', k - j - 1);
  }

  lemma RecordAfterNameAt(s: string, pos: nat, j: nat, k: nat)
    requires pos < j && j + 1 < k && k + 21 <= |s|
    requires AllDigits(s[pos..j]) && s[j] == ' ' && s[k] == '\0' && '\0' !in s[j + 1..k]
    requires IsByteString(s[k + 1..k + 21])
    ensures RecordAfterName(s, pos, j, k) == Some((TreeRow(Some(s[pos..j]), s[j + 1..k], s[k + 1..k + 21]), k + 21))
  {
  }

  /** After the mode and a space, the match continues at the first NUL. */
  lemma RecordAfterModeIs(s: string, i: nat, j: nat, n: nat)
    requires i < j < |s| && AllDigits(s[i..j]) && s[j] == ' '
    requires IndexOf(s[j + 1..], '\0') == Some(n) && '\0' !in s[j + 1..j + 1 + n]
    ensures j + 1 + n < |s| && RecordAfterMode(s, i, j) == RecordAfterName(s, i, j, j + 1 + n)
  {
  }

  /** The regex matches at `pos` when a digit run ending at `j`, a space,
      a non-empty name ending at the NUL at `k` and 20 bytes follow. */
  lemma RecordAfterModeAt(s: string, pos: nat, j: nat, k: nat)
    requires pos < j && j + 1 < k && k + 21 <= |s|
    requires AllDigits(s[pos..j])
    requires s[j] == ' ' && s[k] == '\0'
    requires forall m :: j < m < k ==> s[m] != '\0'
    requires IsByteString(s[k + 1..k + 21])
    ensures RecordAfterMode(s, pos, j) == Some((TreeRow(Some(s[pos..j]), s[j + 1..k], s[k + 1..k + 21]), k + 21))
  {
    FirstNulAfter(s, j, k);
    NulFreePrefix(s, j, k - j - 1);
    RecordAfterModeIs(s, pos, j, k - j - 1);
    RecordAfterNameAt(s, pos, j, k);
  }

  lemma RecordMatchAt(s: string, pos: nat, j: nat, k: nat)
    requires pos < j && j + 1 < k && k + 21 <= |s|
    requires AllDigits(s[pos..j])
    requires s[j] == ' ' && s[k] == '\0'
    requires forall m :: j < m < k ==> s[m] != '\0'
    requires IsByteString(s[k + 1..k + 21])
    ensures RecordMatch(s, pos) == Some((TreeRow(Some(s[pos..j]), s[j + 1..k], s[k + 1..k + 21]), k + 21))
  {
    RecordAfterModeAt(s, pos, j, k);
    assert forall m :: pos <= m < j ==> IsDigit(s[m]) by {
      forall m | pos <= m < j
        ensures IsDigit(s[m])
      {
        assert s[m] == s[pos..j][m - pos];
      }
    }
    DigitEndAt(s, pos, j);
    assert IsDigit(s[pos]);
  }

  /** The regex matches a well-formed record exactly where its text starts. */
  lemma RecordMatchOfText(s: string, pos: nat, row: TreeRow)
    requires WellFormedRecord(row)
    requires pos + |RecordText(row)| <= |s| && s[pos..pos + |RecordText(row)|] == RecordText(row)
    ensures RecordMatch(s, pos) == Some((row, pos + |RecordText(row)|))
  {
    RecordTextAt(s, pos, row);
    var j := pos + |row.mode.value|;
    var k := j + 1 + |row.name|;
    forall m | j < m < k
      ensures s[m] != '\0'
    {
      assert s[m] == s[j + 1..k][m - j - 1];
    }
    RecordMatchAt(s, pos, j, k);
  }

  /** After a match the scan resumes where the match ended. */
  lemma ScanRecordsStep(s: string, pos: nat, row: TreeRow, e: nat)
    requires pos < |s| && RecordMatch(s, pos) == Some((row, e))
    ensures e <= |s| && ScanRecords(s, pos) == [row] + ScanRecords(s, e)
  {
  }

  /** Records laid out from `pos`: the first one's text, then the rest's. */
  lemma RecordsTextFrom(s: string, pos: nat, rows: seq<TreeRow>)
    requires pos <= |s| && |rows| > 0 && HaveModes(rows)
    requires s[pos..] == RecordsText(rows)
    ensures var e := pos + |RecordText(rows[0])|;
      e <= |s| && s[pos..e] == RecordText(rows[0]) && s[e..] == RecordsText(rows[1..])
  {
    var e := pos + |RecordText(rows[0])|;
    assert s[pos..] == RecordText(rows[0]) + RecordsText(rows[1..]);
    assert s[pos..e] == s[pos..][..e - pos];
    assert s[e..] == s[pos..][e - pos..];
  }

  lemma WellFormedTail(rows: seq<TreeRow>)
    requires |rows| > 0 && WellFormedRecords(rows)
    ensures WellFormedRecord(rows[0]) && WellFormedRecords(rows[1..])
  {
  }

  /** Scanning the text of well-formed records finds exactly those records. */
  lemma {:induction false} ScanRecordsText(s: string, pos: nat, rows: seq<TreeRow>)
    requires pos <= |s| && WellFormedRecords(rows)
    requires s[pos..] == RecordsText(rows)
    ensures ScanRecords(s, pos) == rows
    decreases |rows|
  {
    if |rows| == 0 {
      assert |s[pos..]| == 0;
    } else {
      var row := rows[0];
      var e := pos + |RecordText(row)|;
      RecordsTextFrom(s, pos, rows);
      RecordMatchOfText(s, pos, row);
      ScanRecordsStep(s, pos, row, e);
      WellFormedTail(rows);
      ScanRecordsText(s, e, rows[1..]);
      ConsTail(rows);
    }
  }

  /** The byte count of the records is the length of their text. */
  lemma {:induction false} RecordsTextLength(rows: seq<TreeRow>)
    requires WellFormedRecords(rows)
    ensures |RecordsText(rows)| == TotalBytes(rows)
    decreases |rows|
  {
    if |rows| > 0 {
      RecordsTextLength(rows[1..]);
    }
  }

  /** Parsing the text of well-formed records gives the records back. */
  lemma ParseTreeDataOfRecords(rows: seq<TreeRow>)
    requires WellFormedRecords(rows)
    ensures ParseTreeData(RecordsText(rows)) == Success(rows)
  {
    var s := RecordsText(rows);
    ScanRecordsText(s, 0, rows);
    RecordsTextLength(rows);
  }

  /** The record `format_tree_data` writes for one entry: the type's mode,
      the name, and the 20 bytes of the hash. A type without a mode gives
      `nil + " "`, which raises. */
  function FormatTreeEntry(entry: EntrySpec): (r: Result<TreeRow>)
    requires HasHexSha1Prefix(entry.sha1)
    ensures r.Success? <==> ModeForType(entry.objectType).Some?
    ensures r.Failure? ==> r.error == NoMethodError
    ensures r.Success? ==> r.value.mode == ModeForType(entry.objectType) && r.value.name == entry.name &&
                           |r.value.sha1| == 20 && IsByteString(r.value.sha1)
    ensures r.Success? && IsHexSha1(entry.sha1) ==> HexStringSha1(r.value.sha1) == entry.sha1
  {
    match ModeForType(entry.objectType)
    case None => Failure(NoMethodError)
    case Some(mode) =>
      if IsHexSha1(entry.sha1) then HexStringOfByteArray(entry.sha1); Success(TreeRow(Some(mode), entry.name, ByteArraySha1(entry.sha1)))
      else Success(TreeRow(Some(mode), entry.name, ByteArraySha1(entry.sha1)))
  }

  predicate HexEntries(entries: seq<EntrySpec>) {
    forall i :: 0 <= i < |entries| ==> HasHexSha1Prefix(entries[i].sha1)
  }

  /** The records of all entries, or the error of the first entry without one. */
  function FormatTreeRows(entries: seq<EntrySpec>): (r: Result<seq<TreeRow>>)
    requires HexEntries(entries)
    ensures r.Success? <==> forall i :: 0 <= i < |entries| ==> ModeForType(entries[i].objectType).Some?
    ensures r.Success? ==>
      |r.value| == |entries| && forall i :: 0 <= i < |entries| ==> Success(r.value[i]) == FormatTreeEntry(entries[i])
    ensures r.Failure? ==> r.error == NoMethodError
    decreases |entries|
  {
    if |entries| == 0 then Success([])
    else
      var row :- FormatTreeEntry(entries[0]);
      var rest :- FormatTreeRows(entries[1..]);
      Success([row] + rest)
  }

  /** Every mode of VALID_MODES is a non-empty run of digits. */
  lemma ValidModesAreDigits(mode: string)
    requires mode in ValidModes()
    ensures |mode| > 0 && AllDigits(mode)
  {
  }

  /** `format_tree_data`: the entries' records, concatenated. */
  function FormatTreeData(entries: seq<EntrySpec>): (r: Result<string>)
    requires HexEntries(entries)
    ensures r.Success? <==> forall i :: 0 <= i < |entries| ==> ModeForType(entries[i].objectType).Some?
    ensures r.Failure? ==> r.error == NoMethodError
  {
    var rows :- FormatTreeRows(entries);
    Success(RecordsText(rows))
  }

  /** Entries whose names `parse_tree_data` can read back. */
  predicate ReadableNames(entries: seq<EntrySpec>) {
    forall i :: 0 <= i < |entries| ==> |entries[i].name| > 0 && '\0' !in entries[i].name
  }

  /** A formatted tree parses back into one row per entry: the entry's mode,
      its name, and its hash in binary form. */
  lemma TreeDataRoundTrip(entries: seq<EntrySpec>)
    requires HexEntries(entries) && ReadableNames(entries)
    requires FormatTreeData(entries).Success?
    ensures var rows := ParseTreeData(FormatTreeData(entries).value);
      rows.Success? && |rows.value| == |entries| &&
      forall i :: 0 <= i < |entries| ==>
        rows.value[i] == TreeRow(ModeForType(entries[i].objectType), entries[i].name, ByteArraySha1(entries[i].sha1))
  {
    var rows := FormatTreeRows(entries).value;
    assert WellFormedRecords(rows) by {
      forall i | 0 <= i < |rows|
        ensures WellFormedRecord(rows[i])
      {
        ModeForTypeIsValid(entries[i].objectType);
        ValidModesAreDigits(rows[i].mode.value);
      }
    }
    assert FormatTreeData(entries).value == RecordsText(rows);
    ParseTreeDataOfRecords(rows);
  }

  // ---------------------------------------------------------------------------
  // Commit payloads

  /** A header row: its label, a space and the value. */
  function LabelledRowText(tag: string, value: string): string {
    tag + " " + value
  }

  /** One row labelled `tag` per value. */
  function TaggedRows(tag: string, values: seq<string>): (rows: seq<string>)
    ensures |rows| == |values|
    ensures forall i :: 0 <= i < |values| ==> rows[i] == LabelledRowText(tag, values[i])
  {
    seq(|values|, i requires 0 <= i < |values| => LabelledRowText(tag, values[i]))
  }

  function ParentRows(parents: seq<string>): seq<string> {
    TaggedRows("parent", parents)
  }

  /** The time stamp part of an author or committer row: seconds since the
      epoch and the fixed zone `-0300`. */
  function Stamped(who: string, time: nat): string {
    who + " " + Decimal(time) + " -0300"
  }

  /** The rows of a commit payload, each of which `format_commit_data`
      terminates with a newline: the tree, the parents, author and committer
      with the creation times, a blank row and the subject. */
  function CommitRows(tree: string, parents: seq<string>, author: string, committer: string, subject: string,
                      authorTime: nat, committerTime: nat): seq<string>
  {
    [LabelledRowText("tree", tree)] + ParentRows(parents) +
    [LabelledRowText("author", Stamped(author, authorTime)), LabelledRowText("committer", Stamped(committer, committerTime)), "", subject]
  }

  /** `format_commit_data`. `Time.now` is read once for the author row and
      once for the committer row; the two readings are parameters. */
  function FormatCommitData(tree: string, parents: seq<string>, author: string, committer: string, subject: string,
                            authorTime: nat, committerTime: nat): (data: string)
    ensures |data| > 0 && data[|data| - 1] == '\n'
  {
    var rows := CommitRows(tree, parents, author, committer, subject, authorTime, committerTime);
    LinesJoin(rows, '\n');
    Lines(rows, '\n')
  }

  /** `row.split[0] == tag`: the row's first whitespace-separated word is
      the tag. */
  predicate FirstWordIs(row: string, tag: string) {
    var ws := Words(row);
    |ws| > 0 && ws[0] == tag
  }

  /** `row[/\A\w+ (.*)/, 1]`: what follows the leading word and one space,
      or nil when the row does not start that way. */
  function LabelValue(row: string): (r: Option<string>)
    ensures r.Some? <==> 0 < WordEnd(row, 0) < |row| && row[WordEnd(row, 0)] == ' '
    ensures r.Some? ==> r.value == row[WordEnd(row, 0) + 1..] && AllWordChars(row[..WordEnd(row, 0)])
  {
    var j := WordEnd(row, 0);
    if 0 < j < |row| && row[j] == ' ' then Some(row[j + 1..]) else None
  }

  /** What one row contributes to `find_all { ... }.map { ... }`. */
  function TagValue(row: string, tag: string): seq<Option<string>> {
    if FirstWordIs(row, tag) then [LabelValue(row)] else []
  }

  /** The values of the rows labelled `tag`, in order. */
  function LabelledValues(rows: seq<string>, tag: string): seq<Option<string>> {
    ConcatMap(rows, row => TagValue(row, tag))
  }

  /** `rows[0...(rows.index('') || -1)]`: the rows before the first blank
      one or, when there is none, all rows but the last. */
  function HeaderRows(rows: seq<string>): (r: seq<string>)
    ensures |r| <= |rows| && r == rows[..|r|] && "" !in r
    ensures "" in rows ==> |r| < |rows| && rows[|r|] == ""
    ensures "" !in rows ==> |r| == if |rows| == 0 then 0 else |rows| - 1
  {
    match IndexOf(rows, "")
    case Some(i) => rows[..i]
    case None => if |rows| == 0 then [] else rows[..|rows| - 1]
  }

  /** `read_commit_data_rows`: among the header rows, the values of those
      whose first word is `tag`, in order. */
  function ReadCommitDataRows(data: string, tag: string): (r: seq<Option<string>>)
    ensures var header := HeaderRows(Split(data, '\n'));
            forall v :: v in r <==> exists j :: 0 <= j < |header| && FirstWordIs(header[j], tag) && v == LabelValue(header[j])
  {
    var header := HeaderRows(Split(data, '\n'));
    LabelledValuesFrom(header, tag);
    LabelledValues(header, tag)
  }

  /** A value is labelled `tag` exactly when some row whose first word is
      `tag` carries it. */
  lemma {:induction false} LabelledValuesFrom(rows: seq<string>, tag: string)
    ensures forall v :: v in LabelledValues(rows, tag) <==>
      exists j :: 0 <= j < |rows| && FirstWordIs(rows[j], tag) && v == LabelValue(rows[j])
    decreases |rows|
  {
    if |rows| > 0 {
      LabelledValuesFrom(rows[1..], tag);
      assert LabelledValues(rows, tag) == TagValue(rows[0], tag) + LabelledValues(rows[1..], tag);
      forall v | v in LabelledValues(rows, tag)
        ensures exists j :: 0 <= j < |rows| && FirstWordIs(rows[j], tag) && v == LabelValue(rows[j])
      {
        if v !in TagValue(rows[0], tag) {
          var j :| 0 <= j < |rows[1..]| && FirstWordIs(rows[1..][j], tag) && v == LabelValue(rows[1..][j]);
          assert rows[j + 1] == rows[1..][j];
        }
      }
      forall v | exists j :: 0 <= j < |rows| && FirstWordIs(rows[j], tag) && v == LabelValue(rows[j])
        ensures v in LabelledValues(rows, tag)
      {
        var j :| 0 <= j < |rows| && FirstWordIs(rows[j], tag) && v == LabelValue(rows[j]);
        if j > 0 {
          assert rows[1..][j - 1] == rows[j];
        }
      }
    }
  }

  /** `read_commit_data_row`: the value of the one row labelled `tag`. */
  function ReadCommitDataRow(data: string, tag: string): (r: Result<Option<string>>)
    ensures r.Success? <==> |ReadCommitDataRows(data, tag)| == 1
    ensures r.Success? ==> r.value == ReadCommitDataRows(data, tag)[0]
    ensures |ReadCommitDataRows(data, tag)| == 0 ==> r == Failure(MissingCommitDataError(tag))
    ensures |ReadCommitDataRows(data, tag)| > 1 ==> r == Failure(ExcessiveCommitDataError(tag))
  {
    var rows := ReadCommitDataRows(data, tag);
    if |rows| == 0 then Failure(MissingCommitDataError(tag))
    else if |rows| > 1 then Failure(ExcessiveCommitDataError(tag))
    else Success(rows[0])
  }

  /** `read_subject_rows`: the rows after the first blank one, joined. */
  function ReadSubjectRows(data: string): (r: Result<string>)
    ensures r.Failure? <==> "" !in Split(data, '\n')
    ensures r.Failure? ==> r.error == MissingCommitDataError("subject")
  {
    var rows := Split(data, '\n');
    match IndexOf(rows, "")
    case None => Failure(MissingCommitDataError("subject"))
    case Some(i) => Success(Join(rows[i + 1..], '\n'))
  }

  /** The regex ` (\d+) [+-]\d{4}` matches at `m`. */
  predicate StampAt(v: string, m: nat) {
    m + 1 < |v| && v[m] == ' ' && IsDigit(v[m + 1]) &&
    var e := DigitEnd(v, m + 1);
    e + 6 <= |v| && v[e] == ' ' && (v[e + 1] == '+' || v[e + 1] == '-') &&
    IsDigit(v[e + 2]) && IsDigit(v[e + 3]) && IsDigit(v[e + 4]) && IsDigit(v[e + 5])
  }

  /** The last position below `n` where a time stamp starts. */
  function LastStampBelow(v: string, n: nat): Option<nat>
    requires n <= |v|
    decreases n
  {
    if n == 0 then None
    else if StampAt(v, n - 1) then Some(n - 1)
    else LastStampBelow(v, n - 1)
  }

  /** The search finds a time stamp exactly when there is one below `n`,
      and then the last one. */
  lemma {:induction false} LastStampBelowIsLast(v: string, n: nat)
    requires n <= |v|
    ensures var r := LastStampBelow(v, n);
      (r.None? <==> forall m :: 0 <= m < n ==> !StampAt(v, m)) &&
      (r.Some? ==> r.value < n && StampAt(v, r.value) && forall m :: r.value < m < n ==> !StampAt(v, m))
    decreases n
  {
    if n > 0 && !StampAt(v, n - 1) {
      LastStampBelowIsLast(v, n - 1);
    }
  }

  /** The name before a time stamp at `m` and the stamp's seconds. */
  function StampFrom(v: string, m: nat): (r: Signature)
    requires m < |v| && StampAt(v, m)
    ensures r.Stamp? && r.name == v[..m]
  {
    Stamp(v[..m], DigitsValue(v[m + 1..DigitEnd(v, m + 1)]))
  }

  /** `value =~ /(.*) (\d+) [+-]\d{4}/ && [$1, Time.at($2.to_i)]`. The
      greedy `(.*)` takes the longest prefix after which a time stamp
      starts; nil, or a value without a time stamp, gives nil. */
  function ParseSignature(value: Option<string>): (r: Signature)
    ensures r.Text? == false
    ensures value.None? ==> r == Absent
    ensures value.Some? ==> (r.Stamp? <==> exists m :: 0 <= m < |value.value| && StampAt(value.value, m))
  {
    match value
    case None => Absent
    case Some(v) =>
      var r := LastStampBelow(v, |v|);
      LastStampBelowIsLast(v, |v|);
      if r.None? then Absent else StampFrom(v, r.value)
  }

  /** `parse_commit_data`: the tree, the parents, the author, the committer
      and the subject, read in that order; the first missing or repeated
      row raises. */
  function ParseCommitData(data: string): (r: Result<CommitData>)
    ensures r.Success? ==> r.value.parents == ReadCommitDataRows(data, "parent")
    ensures r.Success? ==> Success(r.value.tree) == ReadCommitDataRow(data, "tree")
    ensures ReadCommitDataRow(data, "tree").Failure? ==> r == Failure(ReadCommitDataRow(data, "tree").error)
  {
    var tree :- ReadCommitDataRow(data, "tree");
    var parents := ReadCommitDataRows(data, "parent");
    var author :- ReadCommitDataRow(data, "author");
    var committer :- ReadCommitDataRow(data, "committer");
    var subject :- ReadSubjectRows(data);
    Success(CommitData(tree, parents, ParseSignature(author), ParseSignature(committer), subject))
  }

  // Round trip of commit payloads.

  /** A row written as `LabelledRowText(tag, value)` is labelled `tag` and nothing
      else, and its value is read back whole. */
  lemma LabelledRow(tag: string, value: string, other: string)
    requires |tag| > 0 && AllWordChars(tag)
    ensures FirstWordIs(LabelledRowText(tag, value), other) <==> other == tag
    ensures LabelValue(LabelledRowText(tag, value)) == Some(value)
  {
    var row := LabelledRowText(tag, value);
    assert forall i :: 0 <= i < |tag| ==> !IsSpace(tag[i]) by {
      forall i | 0 <= i < |tag|
        ensures !IsSpace(tag[i])
      {
        assert IsWordChar(tag[i]);
      }
    }
    FirstWordOfLabelled(tag, value);
    WordEndAt(row, 0, |tag|);
    assert row[|tag| + 1..] == value;
  }

  lemma LabelledValuesAppend(a: seq<string>, b: seq<string>, tag: string)
    ensures LabelledValues(a + b, tag) == LabelledValues(a, tag) + LabelledValues(b, tag)
  {
    ConcatMapAppend(a, b, row => TagValue(row, tag));
  }

  lemma LabelledValuesSingle(tag: string, value: string, other: string)
    requires |tag| > 0 && AllWordChars(tag)
    ensures LabelledValues([LabelledRowText(tag, value)], other) == if other == tag then [Some(value)] else []
  {
    LabelledRow(tag, value, other);
    ConcatMapSingle(LabelledRowText(tag, value), row => TagValue(row, other));
  }

  function Somes(xs: seq<string>): (r: seq<Option<string>>)
    ensures |r| == |xs| && forall i :: 0 <= i < |xs| ==> r[i] == Some(xs[i])
  {
    seq(|xs|, i requires 0 <= i < |xs| => Some(xs[i]))
  }

  lemma LabelledTaggedRows(rowTag: string, values: seq<string>, tag: string)
    requires |rowTag| > 0 && AllWordChars(rowTag)
    ensures LabelledValues(TaggedRows(rowTag, values), tag) == if tag == rowTag then Somes(values) else []
  {
    var rows := TaggedRows(rowTag, values);
    var f := row => TagValue(row, tag);
    forall i | 0 <= i < |rows|
      ensures f(rows[i]) == if tag == rowTag then [Some(values[i])] else []
    {
      LabelledRow(rowTag, values[i], tag);
      assert f(rows[i]) == TagValue(rows[i], tag);
    }
    if tag == rowTag {
      ConcatMapSingles(rows, f, Somes(values));
    } else {
      ConcatMapEmpty(rows, f);
    }
  }

  /** Rows labelled with four words read back per label: one value, a
      list of values, one value, one value. */
  lemma LabelledFourParts(t1: string, v1: string, t2: string, vs: seq<string>, t3: string, v3: string,
                          t4: string, v4: string, tag: string)
    requires |t1| > 0 && AllWordChars(t1) && |t2| > 0 && AllWordChars(t2)
    requires |t3| > 0 && AllWordChars(t3) && |t4| > 0 && AllWordChars(t4)
    ensures LabelledValues([LabelledRowText(t1, v1)] + TaggedRows(t2, vs) + [LabelledRowText(t3, v3)] + [LabelledRowText(t4, v4)], tag) ==
      (if tag == t1 then [Some(v1)] else []) + (if tag == t2 then Somes(vs) else []) +
      (if tag == t3 then [Some(v3)] else []) + (if tag == t4 then [Some(v4)] else [])
  {
    var a := [LabelledRowText(t1, v1)];
    var p := TaggedRows(t2, vs);
    var b := [LabelledRowText(t3, v3)];
    var c := [LabelledRowText(t4, v4)];
    LabelledValuesAppend(a + p + b, c, tag);
    LabelledValuesAppend(a + p, b, tag);
    LabelledValuesAppend(a, p, tag);
    LabelledTaggedRows(t2, vs, tag);
    LabelledValuesSingle(t1, v1, tag);
    LabelledValuesSingle(t3, v3, tag);
    LabelledValuesSingle(t4, v4, tag);
  }

  /** Rows labelled with three words read back per label: one value, a
      list of values, one value. */
  lemma LabelledThreeParts(t1: string, v1: string, t2: string, vs: seq<string>, t3: string, v3: string, tag: string)
    requires |t1| > 0 && AllWordChars(t1) && |t2| > 0 && AllWordChars(t2) && |t3| > 0 && AllWordChars(t3)
    ensures LabelledValues([LabelledRowText(t1, v1)] + TaggedRows(t2, vs) + [LabelledRowText(t3, v3)], tag) ==
      (if tag == t1 then [Some(v1)] else []) + (if tag == t2 then Somes(vs) else []) +
      (if tag == t3 then [Some(v3)] else [])
  {
    var a := [LabelledRowText(t1, v1)];
    var p := TaggedRows(t2, vs);
    var b := [LabelledRowText(t3, v3)];
    LabelledValuesAppend(a + p, b, tag);
    LabelledValuesAppend(a, p, tag);
    LabelledTaggedRows(t2, vs, tag);
    LabelledValuesSingle(t1, v1, tag);
    LabelledValuesSingle(t3, v3, tag);
  }

  /** The header rows of a commit up to the author. */
  function AuthoredRows(tree: string, parents: seq<string>, author: string, authorTime: nat): seq<string> {
    [LabelledRowText("tree", tree)] + ParentRows(parents) + [LabelledRowText("author", Stamped(author, authorTime))]
  }

  /** The header rows of a commit, labelled with four distinct words. */
  function HeaderRowsOf(tree: string, parents: seq<string>, author: string, committer: string,
                        authorTime: nat, committerTime: nat): seq<string>
  {
    AuthoredRows(tree, parents, author, authorTime) + [LabelledRowText("committer", Stamped(committer, committerTime))]
  }

  lemma LabelledAuthoredRows(tree: string, parents: seq<string>, author: string, authorTime: nat, tag: string)
    ensures LabelledValues(AuthoredRows(tree, parents, author, authorTime), tag) ==
      (if tag == "tree" then [Some(tree)] else []) +
      (if tag == "parent" then Somes(parents) else []) +
      (if tag == "author" then [Some(Stamped(author, authorTime))] else [])
  {
    LabelledThreeParts("tree", tree, "parent", parents, "author", Stamped(author, authorTime), tag);
  }

  lemma LabelledHeaderRows(tree: string, parents: seq<string>, author: string, committer: string,
                           authorTime: nat, committerTime: nat, tag: string)
    ensures var rows := HeaderRowsOf(tree, parents, author, committer, authorTime, committerTime);
      LabelledValues(rows, tag) ==
        (if tag == "tree" then [Some(tree)] else []) +
        (if tag == "parent" then Somes(parents) else []) +
        (if tag == "author" then [Some(Stamped(author, authorTime))] else []) +
        (if tag == "committer" then [Some(Stamped(committer, committerTime))] else [])
  {
    LabelledFourParts("tree", tree, "parent", parents, "author", Stamped(author, authorTime),
                      "committer", Stamped(committer, committerTime), tag);
  }

  /** A space, digits up to `e`, and a zone `-dddd` ending the value make a
      time stamp at `m`. */
  lemma StampAtOf(v: string, m: nat, e: nat)
    requires m + 1 < e && e + 6 == |v|
    requires v[m] == ' ' && forall k :: m + 1 <= k < e ==> IsDigit(v[k])
    requires v[e] == ' ' && v[e + 1] == '-'
    requires IsDigit(v[e + 2]) && IsDigit(v[e + 3]) && IsDigit(v[e + 4]) && IsDigit(v[e + 5])
    ensures StampAt(v, m) && DigitEnd(v, m + 1) == e
  {
    DigitEndAt(v, m + 1, e);
  }

  /** Where the parts of `who + " " + d + " -0300"` sit. */
  lemma StampedParts(who: string, d: string)
    requires |d| > 0
    ensures var v := who + " " + d + " -0300"; var e := |who| + 1 + |d|;
      |v| == e + 6 && v[..|who|] == who && v[|who|] == ' ' && v[|who| + 1..e] == d && v[e..] == " -0300"
  {
  }

  /** A value laid out as a name of `m` characters, a space, the digits `d`
      and the zone has a time stamp at `m`. */
  lemma StampOfParts(v: string, m: nat, d: string)
    requires |d| > 0 && AllDigits(d)
    requires |v| == m + 1 + |d| + 6 && v[m] == ' ' && v[m + 1..m + 1 + |d|] == d && v[m + 1 + |d|..] == " -0300"
    ensures StampAt(v, m) && DigitEnd(v, m + 1) == m + 1 + |d|
  {
    var e := m + 1 + |d|;
    var z := v[e..];
    assert v[e] == z[0] && v[e + 1] == z[1] && v[e + 2] == z[2] && v[e + 3] == z[3] && v[e + 4] == z[4] && v[e + 5] == z[5];
    forall k | m + 1 <= k < e
      ensures IsDigit(v[k])
    {
      assert v[k] == v[m + 1..e][k - m - 1];
    }
    StampAtOf(v, m, e);
  }

  /** No time stamp starts after the name: the digits are followed by the
      zone, which is not followed by another stamp. */
  lemma NoStampAfterName(who: string, d: string)
    requires |d| > 0 && AllDigits(d)
    ensures var v := who + " " + d + " -0300";
      forall m :: |who| < m < |v| ==> !StampAt(v, m)
  {
    var v := who + " " + d + " -0300";
    var m0 := |who|;
    var e := m0 + 1 + |d|;
    forall m | m0 < m < |v|
      ensures !StampAt(v, m)
    {
      if m < e {
        assert v[m] == d[m - m0 - 1];
      } else if m == e {
        assert v[m + 1] == '-';
      }
    }
  }

  /** The last time stamp is the one after which no other starts. */
  lemma {:induction false} LastStampIs(v: string, m0: nat, n: nat)
    requires m0 < n <= |v| && StampAt(v, m0)
    requires forall m :: m0 < m < n ==> !StampAt(v, m)
    ensures LastStampBelow(v, n) == Some(m0)
    decreases n
  {
    if n - 1 > m0 {
      LastStampIs(v, m0, n - 1);
    }
  }

  /** A value whose last time stamp starts at `m` reads back as the stamp
      at `m`. */
  lemma SignatureAt(v: string, m: nat)
    requires LastStampBelow(v, |v|) == Some(m)
    ensures m < |v| && StampAt(v, m)
    ensures ParseSignature(Some(v)) == StampFrom(v, m)
  {
    LastStampBelowIsLast(v, |v|);
  }

  /** The stamp at `m` of a value laid out as `who`, a space, the digits
      `d` and the zone. */
  lemma StampFromParts(v: string, m: nat, who: string, d: string)
    requires |d| > 0 && AllDigits(d)
    requires m < |v| && StampAt(v, m) && DigitEnd(v, m + 1) == m + 1 + |d|
    requires v[..m] == who && v[m + 1..m + 1 + |d|] == d
    ensures StampFrom(v, m) == Stamp(who, DigitsValue(d))
  {
  }

  /** A name, a space, decimal digits and the zone read back as the name
      and the digits' value. */
  lemma ParseStampedDigits(who: string, d: string)
    requires |d| > 0 && AllDigits(d)
    ensures ParseSignature(Some(who + " " + d + " -0300")) == Stamp(who, DigitsValue(d))
  {
    var v := who + " " + d + " -0300";
    StampedParts(who, d);
    StampOfParts(v, |who|, d);
    NoStampAfterName(who, d);
    LastStampIs(v, |who|, |v|);
    SignatureAt(v, |who|);
    StampFromParts(v, |who|, who, d);
  }

  /** An author or committer row written at `time` reads back as that name
      and time. */
  lemma ParseStamped(who: string, time: nat)
    ensures ParseSignature(Some(Stamped(who, time))) == Stamp(who, time)
  {
    ParseStampedDigits(who, Decimal(time));
    DecimalRoundTrip(time);
  }

  /** The rows of a payload whose header fields hold no newline: header
      rows free of newlines and blanks, a blank row, and the subject. */
  lemma CommitRowsShape(tree: string, parents: seq<string>, author: string, committer: string, subject: string,
                        authorTime: nat, committerTime: nat)
    requires '\n' !in tree && '\n' !in author && '\n' !in committer
    requires forall i :: 0 <= i < |parents| ==> '\n' !in parents[i]
    ensures var rows := CommitRows(tree, parents, author, committer, subject, authorTime, committerTime);
      var header := HeaderRowsOf(tree, parents, author, committer, authorTime, committerTime);
      rows == header + ["", subject] && rows == header + [""] + [subject] && "" !in header &&
      forall i :: 0 <= i < |header| ==> '\n' !in header[i]
  {
    var header := HeaderRowsOf(tree, parents, author, committer, authorTime, committerTime);
    var rows := CommitRows(tree, parents, author, committer, subject, authorTime, committerTime);
    assert rows == header + ["", subject];
    assert ["", subject] == [""] + [subject];
    assert forall i :: 0 <= i < |header| ==> |header[i]| > 0;
    assert '\n' !in Decimal(authorTime) && '\n' !in Decimal(committerTime);
  }

  /** A payload whose rows are header rows, a blank row and the subject
      rows: the labelled rows are looked up among the header rows and the
      subject is what follows the blank row. */
  lemma ReadCommitDataSplit(data: string, header: seq<string>, rest: seq<string>, tag: string)
    requires Split(data, '\n') == header + [""] + rest
    requires "" !in header
    ensures ReadCommitDataRows(data, tag) == LabelledValues(header, tag)
    ensures ReadSubjectRows(data) == Success(Join(rest, '\n'))
  {
    var rows := header + [""] + rest;
    assert rows[..|header|] == header;
    IndexOfAt(rows, "", |header|);
    assert rows[|header| + 1..] == rest;
  }

  /** `parse_commit_data` on a payload whose rows have been read. */
  lemma ParseCommitDataOf(data: string, tree: string, parents: seq<Option<string>>, author: string, committer: string,
                          subject: string)
    requires ReadCommitDataRow(data, "tree") == Success(Some(tree))
    requires ReadCommitDataRows(data, "parent") == parents
    requires ReadCommitDataRow(data, "author") == Success(Some(author))
    requires ReadCommitDataRow(data, "committer") == Success(Some(committer))
    requires ReadSubjectRows(data) == Success(subject)
    ensures ParseCommitData(data) ==
      Success(CommitData(Some(tree), parents, ParseSignature(Some(author)), ParseSignature(Some(committer)), subject))
  {
  }

  /** The rows of a payload whose subject is not empty and does not end
      in a newline are the header rows, a blank row and the subject's own
      lines. */
  lemma CommitPayloadRows(tree: string, parents: seq<string>, author: string, committer: string, subject: string,
                          authorTime: nat, committerTime: nat)
    requires '\n' !in tree && '\n' !in author && '\n' !in committer
    requires forall i :: 0 <= i < |parents| ==> '\n' !in parents[i]
    requires subject != "" && subject[|subject| - 1] != '\n'
    ensures Split(FormatCommitData(tree, parents, author, committer, subject, authorTime, committerTime), '\n') ==
      HeaderRowsOf(tree, parents, author, committer, authorTime, committerTime) + [""] + Fields(subject, '\n')
  {
    var header := HeaderRowsOf(tree, parents, author, committer, authorTime, committerTime);
    var rows := CommitRows(tree, parents, author, committer, subject, authorTime, committerTime);
    CommitRowsShape(tree, parents, author, committer, subject, authorTime, committerTime);
    assert SepFree(header, '\n') && SepFree([""], '\n');
    SepFreeAppend(header, [""], '\n');
    SplitLinesWithLast(header + [""], subject, '\n');
  }

  /** A commit payload parses back into the fields it was written from, as
      long as no header field holds a newline; the subject may span several
      lines, but must not be empty or end in a newline, since `split` drops
      trailing empty rows. */
  lemma CommitDataRoundTrip(tree: string, parents: seq<string>, author: string, committer: string, subject: string,
                            authorTime: nat, committerTime: nat)
    requires '\n' !in tree && '\n' !in author && '\n' !in committer
    requires forall i :: 0 <= i < |parents| ==> '\n' !in parents[i]
    requires subject != "" && subject[|subject| - 1] != '\n'
    ensures ParseCommitData(FormatCommitData(tree, parents, author, committer, subject, authorTime, committerTime)) ==
      Success(CommitData(Some(tree), Somes(parents), Stamp(author, authorTime), Stamp(committer, committerTime), subject))
  {
    var data := FormatCommitData(tree, parents, author, committer, subject, authorTime, committerTime);
    var header := HeaderRowsOf(tree, parents, author, committer, authorTime, committerTime);
    var lines := Fields(subject, '\n');
    CommitRowsShape(tree, parents, author, committer, subject, authorTime, committerTime);
    CommitPayloadRows(tree, parents, author, committer, subject, authorTime, committerTime);
    ReadCommitDataSplit(data, header, lines, "tree");
    ReadCommitDataSplit(data, header, lines, "parent");
    ReadCommitDataSplit(data, header, lines, "author");
    ReadCommitDataSplit(data, header, lines, "committer");
    LabelledHeaderRows(tree, parents, author, committer, authorTime, committerTime, "tree");
    LabelledHeaderRows(tree, parents, author, committer, authorTime, committerTime, "parent");
    LabelledHeaderRows(tree, parents, author, committer, authorTime, committerTime, "author");
    LabelledHeaderRows(tree, parents, author, committer, authorTime, committerTime, "committer");
    JoinFields(subject, '\n');
    ParseCommitDataOf(data, tree, Somes(parents), Stamped(author, authorTime), Stamped(committer, committerTime), subject);
    ParseStamped(author, authorTime);
    ParseStamped(committer, committerTime);
  }

  /** A payload without a blank row: the labelled rows are looked up among
      all rows but the last. */
  lemma ReadCommitDataNoBlank(data: string, rows: seq<string>, tag: string)
    requires Split(data, '\n') == rows
    requires "" !in rows && |rows| > 0
    ensures ReadCommitDataRows(data, tag) == LabelledValues(rows[..|rows| - 1], tag)
  {
  }

  /** `parse_commit_data` on a payload with a tree and an author but no
      committer row. */
  lemma ParseCommitDataWithoutCommitter(data: string)
    requires ReadCommitDataRow(data, "tree").Success?
    requires ReadCommitDataRow(data, "author").Success?
    requires ReadCommitDataRows(data, "committer") == []
    ensures ParseCommitData(data) == Failure(MissingCommitDataError("committer"))
  {
  }

  /** The rows of a payload with an empty subject, as `split` returns them:
      the header rows alone. */
  lemma EmptySubjectPayloadRows(tree: string, parents: seq<string>, author: string, committer: string,
                                authorTime: nat, committerTime: nat)
    requires '\n' !in tree && '\n' !in author && '\n' !in committer
    requires forall i :: 0 <= i < |parents| ==> '\n' !in parents[i]
    ensures var header := HeaderRowsOf(tree, parents, author, committer, authorTime, committerTime);
      Split(FormatCommitData(tree, parents, author, committer, "", authorTime, committerTime), '\n') == header &&
      "" !in header && |header| > 0
  {
    var header := HeaderRowsOf(tree, parents, author, committer, authorTime, committerTime);
    CommitRowsShape(tree, parents, author, committer, "", authorTime, committerTime);
    SplitLinesTwoBlank(header, '\n');
  }

  /** With an empty subject the payload ends in three newlines; `split`
      drops the blank rows with the empty subject, so the last header row,
      the committer, is cut off as if it were the subject. */
  lemma EmptySubjectLosesCommitter(tree: string, parents: seq<string>, author: string, committer: string,
                                   authorTime: nat, committerTime: nat)
    requires '\n' !in tree && '\n' !in author && '\n' !in committer
    requires forall i :: 0 <= i < |parents| ==> '\n' !in parents[i]
    ensures ParseCommitData(FormatCommitData(tree, parents, author, committer, "", authorTime, committerTime)) ==
      Failure(MissingCommitDataError("committer"))
  {
    var data := FormatCommitData(tree, parents, author, committer, "", authorTime, committerTime);
    var header := HeaderRowsOf(tree, parents, author, committer, authorTime, committerTime);
    var visible := AuthoredRows(tree, parents, author, authorTime);
    EmptySubjectPayloadRows(tree, parents, author, committer, authorTime, committerTime);
    assert header[..|header| - 1] == visible;
    ReadCommitDataNoBlank(data, header, "tree");
    ReadCommitDataNoBlank(data, header, "author");
    ReadCommitDataNoBlank(data, header, "committer");
    LabelledAuthoredRows(tree, parents, author, authorTime, "tree");
    LabelledAuthoredRows(tree, parents, author, authorTime, "author");
    LabelledAuthoredRows(tree, parents, author, authorTime, "committer");
    ParseCommitDataWithoutCommitter(data);
  }
}
