/** check_current_branch.rb: a stand-alone checker for the branch HEAD
    names. From the branch's tip it reads every reachable loose object,
    checks its type, its size and its hash, and walks from a commit to its
    tree and parents and from a tree to its entries, checking each hash at
    most once. Object files are kept inflated, keyed by their path under
    `.git/objects/`; the SHA1 hex digest is a parameter. */
module CheckCurrentBranch {

  import opened Results
  import opened Text
  import opened Sha1Util
  import FileSystemRepository
  import opened ObjectData
  import Modes

  const BlobMode := "100644"
  const TreeMode := "40000"
  const ExecutableFileMode := "100755"
  const SymLinkMode := "120000"
  const Sha1SizeInBytes := 20

  /** The loose objects, by path (`"ab/cdef…"`), and `Digest::SHA1.hexdigest`. */
  datatype Store = Store(files: map<string, string>, digest: string -> string)

  // ---------------------------------------------------------------------------
  // read_git_object

  /** `File.join(sha1[0, 2], sha1[2, 38])`: for a hash shorter than two
      characters `sha1[2, 38]` is nil, and `File.join` raises. */
  function ObjectPath(sha1: string): (p: Result<string>)
    ensures p.Failure? <==> |sha1| < 2
    ensures p.Failure? ==> p.error == TypeError
    ensures p.Success? && |sha1| == 2 * Sha1SizeInBytes ==> p.value == sha1[..2] + "/" + sha1[2..]
  {
    if |sha1| < 2 then Failure(TypeError)
    else Success(sha1[..2] + "/" + sha1[2..if |sha1| < 2 * Sha1SizeInBytes then |sha1| else 2 * Sha1SizeInBytes])
  }

  /** `String#to_i` on a whitespace-free word: an optional sign and the
      leading decimal digits, 0 when there are none; `nil.to_i` is 0. */
  function ToI(w: Option<string>): (n: int)
    ensures w.Some? && |w.value| > 0 && AllDigits(w.value) ==> n == DigitsValue(w.value)
  {
    if w.None? then 0
    else
      var s := w.value;
      var start := if |s| > 0 && (s[0] == '+' || s[0] == '-') then 1 else 0;
      var end := DigitEnd(s, start);
      assert AllDigits(s[start..end]);
      var v: int := DigitsValue(s[start..end]);
      if start == 1 && s[0] == '-' then -v
      else
        assert start == 0 ==> end == |s| ==> s[start..end] == s;
        v
  }

  /** The four values `read_git_object` returns: the header's words as the
      type and the size, everything after the header's NUL (nil when there
      is no NUL) and the whole inflated content. */
  datatype Loose = Loose(objectType: Option<string>, size: int, data: Option<string>, raw: string)

  /** The part of `s` before its first `sep`: the first of its fields. */
  lemma {:induction false} FirstField(s: string, sep: char)
    ensures var f := Fields(s, sep)[0];
      |f| <= |s| && f == s[..|f|] && sep !in f && (|f| < |s| ==> s[|f|] == sep)
    decreases |s|
  {
    if |s| > 0 && s[0] != sep {
      FirstField(s[1..], sep);
      var rest := Fields(s[1..], sep);
      assert Fields(s, sep)[0] == [s[0]] + rest[0];
    }
  }

  /** The header's first word as the type, its second read by `to_i` as the size. */
  function HeaderType(header: string): Option<string> {
    if |Words(header)| > 0 then Some(Words(header)[0]) else None
  }

  function HeaderSize(header: string): int {
    ToI(if |Words(header)| > 1 then Some(Words(header)[1]) else None)
  }

  /** `read_git_object(sha1)`: the object file is read and split at its
      first NUL into the header `"type size"` and the data. A missing file
      raises; a content that `split("\0")` turns into no fields at all
      (empty, or nothing but NULs) makes `nil.size` raise. */
  function ReadGitObject(s: Store, sha1: Option<string>): (r: Result<Loose>)
    ensures sha1.None? ==> r == Failure(NoMethodError)
    ensures sha1.Some? && ObjectPath(sha1.value).Success? && ObjectPath(sha1.value).value !in s.files ==>
      r == Failure(RuntimeError(">>> File not found"))
    ensures r.Success? ==>
      (sha1.Some? && ObjectPath(sha1.value).Success? && ObjectPath(sha1.value).value in s.files &&
       r.value.raw == s.files[ObjectPath(sha1.value).value])
    ensures r.Success? ==> (r.value.data.Some? <==> '\0' in r.value.raw)
    ensures r.Success? && r.value.data.Some? ==>
      var raw, data := r.value.raw, r.value.data.value;
      var n := |raw| - |data| - 1;
      0 <= n && raw[n] == '\0' && '\0' !in raw[..n] && raw[n + 1..] == data
  {
    if sha1.None? then Failure(NoMethodError)
    else
      var path := ObjectPath(sha1.value);
      if path.Failure? then Failure(path.error)
      else if path.value !in s.files then Failure(RuntimeError(">>> File not found"))
      else
        var raw := s.files[path.value];
        var fields := Split(raw, '\0');
        if |fields| == 0 then Failure(NoMethodError)
        else
          var header := fields[0];
          FirstField(raw, '\0');
          assert header == Fields(raw, '\0')[0];
          var data := if |header| + 1 <= |raw| then Some(raw[|header| + 1..]) else None;
          assert data.None? ==> header == raw;
          Success(Loose(HeaderType(header), HeaderSize(header), data, raw))
  }

  /** A word with no whitespace in it is a whole word. */
  lemma {:induction false} WordPrefixWhole(w: string)
    requires forall i :: 0 <= i < |w| ==> !IsSpace(w[i])
    ensures WordPrefix(w) == w
    decreases |w|
  {
    if |w| > 0 {
      WordPrefixWhole(w[1..]);
      assert [w[0]] + w[1..] == w;
    }
  }

  /** Two whitespace-free words joined by a space split back into both. */
  lemma WordsOfPair(a: string, b: string)
    requires |a| > 0 && |b| > 0
    requires forall i :: 0 <= i < |a| ==> !IsSpace(a[i])
    requires forall i :: 0 <= i < |b| ==> !IsSpace(b[i])
    ensures Words(a + " " + b) == [a, b]
  {
    var s := a + " " + b;
    WordPrefixOfLabelled(a, b);
    WordPrefixWhole(b);
    assert Words(b) == [b] by {
      assert b[|b|..] == "";
    }
    assert Words(" " + b) == Words(b) by {
      assert (" " + b)[1..] == b;
    }
    assert s[0] == a[0] && !IsSpace(s[0]);
    assert s[|a|..] == " " + b;
    assert Words(s) == [a] + Words(s[|a|..]);
  }

  /** A file holding a non-empty NUL-free header, a NUL and data reads as
      that header's type and size and exactly that data. */
  lemma ReadSplitsAtFirstNul(s: Store, sha1: string, header: string, data: string)
    requires ObjectPath(sha1).Success? && ObjectPath(sha1).value in s.files
    requires s.files[ObjectPath(sha1).value] == header + "\0" + data
    requires header != "" && '\0' !in header
    ensures ReadGitObject(s, Some(sha1)) == Success(Loose(HeaderType(header), HeaderSize(header), Some(data), header + "\0" + data))
  {
    var raw := header + "\0" + data;
    FieldsCons(header, '\0', data);
    assert raw == header + ['\0'] + data;
    var all := Fields(raw, '\0');
    assert all[0] == header;
    var fields := Split(raw, '\0');
    assert |fields| > 0 && fields[0] == header;
    assert raw[|header| + 1..] == data;
  }

  /** A frame's header names its type and its payload's size. */
  lemma FrameHeader(t: string, n: nat)
    requires FileSystemRepository.IsTypeWord(t)
    ensures HeaderType(t + " " + Decimal(n)) == Some(t) && HeaderSize(t + " " + Decimal(n)) == n
  {
    assert forall i :: 0 <= i < |t| ==> !IsSpace(t[i]) by {
      assert forall i :: 0 <= i < |t| ==> IsWordChar(t[i]);
    }
    WordsOfPair(t, Decimal(n));
    DecimalRoundTrip(n);
  }

  /** The frame `create_git_object!` writes reads back as its type, the
      payload's size and the payload. */
  lemma ReadFrame(s: Store, sha1: string, t: string, data: string)
    requires FileSystemRepository.IsTypeWord(t)
    requires ObjectPath(sha1).Success? && ObjectPath(sha1).value in s.files
    requires s.files[ObjectPath(sha1).value] == FileSystemRepository.Frame(t, data)
    ensures ReadGitObject(s, Some(sha1)) == Success(Loose(Some(t), |data|, Some(data), FileSystemRepository.Frame(t, data)))
  {
    var h := t + " " + Decimal(|data|);
    FileSystemRepository.FirstNulOfFrame(t, data);
    var raw := FileSystemRepository.Frame(t, data);
    assert raw[..|h|] == h;
    ReadSplitsAtFirstNul(s, sha1, h, data);
    FrameHeader(t, |data|);
  }

  /** The checker's reader and `parse_object` agree on the payload. */
  lemma ReadAgreesWithParseObject(s: Store, sha1: Option<string>)
    requires ReadGitObject(s, sha1).Success? && ReadGitObject(s, sha1).value.data.Some?
    ensures FileSystemRepository.ParseObject(ReadGitObject(s, sha1).value.raw).Success?
    ensures FileSystemRepository.ParseObject(ReadGitObject(s, sha1).value.raw).value.2 == ReadGitObject(s, sha1).value.data.value
  {
  }

  // ---------------------------------------------------------------------------
  // sha1_as_40_character_string

  /** `"%02x" % c.ord`: one byte as two lower-case hexadecimal digits. */
  function HexPair(c: char): string {
    [HexDigit(ByteOf(c) / 16), HexDigit(ByteOf(c) % 16)]
  }

  /** `sha1_as_40_character_string`: every byte printed as two lower-case
      hexadecimal digits, in order. */
  function Sha1As40CharacterString(b: string): (h: string)
    ensures |h| == 2 * |b|
    ensures forall i :: 0 <= i < |h| ==> IsLowerHexDigit(h[i])
    decreases |b|
  {
    if |b| == 0 then "" else HexPair(b[0]) + Sha1As40CharacterString(b[1..])
  }

  /** Where each byte's two digits sit. */
  lemma {:induction false} Sha1As40PairsAt(b: string)
    ensures forall i :: 0 <= i < |b| ==>
      Sha1As40CharacterString(b)[2 * i] == HexDigit(ByteOf(b[i]) / 16) &&
      Sha1As40CharacterString(b)[2 * i + 1] == HexDigit(ByteOf(b[i]) % 16)
    decreases |b|
  {
    if |b| > 0 {
      Sha1As40PairsAt(b[1..]);
      var t := Sha1As40CharacterString(b[1..]);
      assert Sha1As40CharacterString(b) == HexPair(b[0]) + t;
      forall i | 1 <= i < |b|
        ensures Sha1As40CharacterString(b)[2 * i] == HexDigit(ByteOf(b[i]) / 16) &&
                Sha1As40CharacterString(b)[2 * i + 1] == HexDigit(ByteOf(b[i]) % 16)
      {
        assert b[1..][i - 1] == b[i];
        assert 2 * i == 2 * (i - 1) + 2;
      }
    }
  }

  /** The checker prints a hash as `hex_string_sha1` does. */
  lemma Sha1As40IsHexString(b: string)
    ensures Sha1As40CharacterString(b) == HexStringSha1(b)
  {
    var h, r := Sha1As40CharacterString(b), HexStringSha1(b);
    Sha1As40PairsAt(b);
    forall i | 0 <= i < |b|
      ensures h[2 * i] == r[2 * i] && h[2 * i + 1] == r[2 * i + 1]
    {
      HexValueOfDigit(ByteOf(b[i]) / 16);
      HexValueOfDigit(ByteOf(b[i]) % 16);
      SamePairByte(h[2 * i], h[2 * i + 1], r[2 * i], r[2 * i + 1]);
    }
    forall j | 0 <= j < |h|
      ensures h[j] == r[j]
    {
      if j % 2 == 0 {
        assert j == 2 * (j / 2);
      } else {
        assert j == 2 * (j / 2) + 1;
      }
    }
  }

  /** Twenty bytes become a 40-digit hash, from which `byte_array_sha1`
      reads the bytes back. */
  lemma Sha1As40RoundTrip(b: string)
    requires |b| == Sha1SizeInBytes && IsByteString(b)
    ensures IsHexSha1(Sha1As40CharacterString(b))
    ensures ByteArraySha1(Sha1As40CharacterString(b)) == b
  {
    Sha1As40IsHexString(b);
    ByteArrayOfHexString(b);
  }

  // ---------------------------------------------------------------------------
  // The links out of a commit

  /** `line.split[0] == tag`. */
  predicate Labelled(line: string, tag: string) {
    |Words(line)| > 0 && Words(line)[0] == tag
  }

  /** `line.split[1]`, nil for a line of fewer than two words. */
  function SecondWord(line: string): Option<string> {
    if |Words(line)| > 1 then Some(Words(line)[1]) else None
  }

  /** `rows.find { |line| line.split[0] == tag }`, from the `i`-th row on:
      the index of the first labelled row. */
  function FindLabelled(rows: seq<string>, tag: string, i: nat): (r: Option<nat>)
    requires i <= |rows|
    ensures r.Some? ==> i <= r.value < |rows| && Labelled(rows[r.value], tag)
    ensures forall j :: i <= j < |rows| && (r.None? || j < r.value) ==> !Labelled(rows[j], tag)
    decreases |rows| - i
  {
    if i == |rows| then None
    else if Labelled(rows[i], tag) then Some(i)
    else FindLabelled(rows, tag, i + 1)
  }

  /** `find_all { |line| line.split[0] == 'parent' }.map { |line| line.split[1] }`. */
  function ParentLinks(rows: seq<string>): (r: seq<Option<string>>)
    ensures |r| <= |rows|
    ensures forall x :: x in r <==> exists j :: 0 <= j < |rows| && Labelled(rows[j], "parent") && x == SecondWord(rows[j])
    decreases |rows|
  {
    if |rows| == 0 then []
    else
      assert forall j :: 0 < j < |rows| ==> rows[j] == rows[1..][j - 1];
      (if Labelled(rows[0], "parent") then [SecondWord(rows[0])] else []) + ParentLinks(rows[1..])
  }

  /** The hashes `check_commit` goes on to: its tree (nil when the tree row
      has a single word) and its parents, in the order their rows appear. */
  datatype CommitLinks = CommitLinks(tree: Option<string>, parents: seq<Option<string>>)

  /** The links of a commit's data: with no row whose first word is `tree`,
      `nil.split` raises. */
  function ReadCommitLinks(data: string): (r: Result<CommitLinks>)
    ensures r.Failure? <==> forall j :: 0 <= j < |Split(data, '\n')| ==> !Labelled(Split(data, '\n')[j], "tree")
    ensures r.Failure? ==> r.error == NoMethodError
    ensures r.Success? ==> r.value.parents == ParentLinks(Split(data, '\n'))
  {
    var rows := Split(data, '\n');
    var row := FindLabelled(rows, "tree", 0);
    if row.None? then Failure(NoMethodError)
    else Success(CommitLinks(SecondWord(rows[row.value]), ParentLinks(rows)))
  }

  // ---------------------------------------------------------------------------
  // The entries of a tree

  /** One match of `(\d+) (.+?)\0(.{20})`, the hash already printed by
      `sha1_as_40_character_string`. */
  datatype Entry = Entry(mode: string, name: string, sha1: string)

  /** The first NUL at or after `k`. */
  function NulFrom(s: string, k: nat): (r: Option<nat>)
    requires k <= |s|
    ensures r.Some? ==> k <= r.value < |s| && s[r.value] == '\0'
    ensures forall j :: k <= j < |s| && (r.None? || j < r.value) ==> s[j] != '\0'
    decreases |s| - k
  {
    if k == |s| then None else if s[k] == '\0' then Some(k) else NulFrom(s, k + 1)
  }

  /** The regex `(\d+) (.+?)\0(.{20})` (with `/m`, so `.` matches any byte)
      tried at `i`. The digit run is greedy and cannot give back a digit to
      the space; the lazy name takes at least one byte and stops at the
      first NUL after it, since a later NUL leaves fewer than 20 bytes
      when that one does. The match and the position after it. */
  function EntryMatch(s: string, i: nat): (r: Option<(Entry, nat)>)
    requires i <= |s|
    ensures r.Some? ==> i < r.value.1 <= |s|
    ensures r.Some? ==> |r.value.0.mode| > 0 && AllDigits(r.value.0.mode) && |r.value.0.sha1| == 2 * Sha1SizeInBytes
  {
    if i == |s| || !IsDigit(s[i]) then None
    else
      var j := DigitEnd(s, i);
      if j + 2 > |s| || s[j] != ' ' then None
      else
        var k := NulFrom(s, j + 2);
        if k.None? || k.value + 1 + Sha1SizeInBytes > |s| then None
        else
          assert AllDigits(s[i..j]);
          var e := k.value + 1 + Sha1SizeInBytes;
          Some((Entry(s[i..j], s[j + 1..k.value], Sha1As40CharacterString(s[k.value + 1..e])), e))
  }

  /** `data.scan(...)` from `pos`: each match, then the search resumes after
      it; bytes no match covers are skipped without complaint. */
  function TreeEntries(s: string, pos: nat): (r: seq<Entry>)
    requires pos <= |s|
    ensures forall i :: 0 <= i < |r| ==> |r[i].mode| > 0 && AllDigits(r[i].mode) && |r[i].sha1| == 2 * Sha1SizeInBytes
    decreases |s| - pos
  {
    if pos == |s| then []
    else
      var m := EntryMatch(s, pos);
      if m.Some? then [m.value.0] + TreeEntries(s, m.value.1) else TreeEntries(s, pos + 1)
  }

  /** A NUL at `n` with none between `k` and it is the first from `k`. */
  lemma {:induction false} NulFromAt(s: string, k: nat, n: nat)
    requires k <= n < |s| && s[n] == '\0'
    requires forall m :: k <= m < n ==> s[m] != '\0'
    ensures NulFrom(s, k) == Some(n)
    decreases n - k
  {
    if k < n {
      NulFromAt(s, k + 1, n);
    }
  }

  /** What the checker reads from a record `format_tree_data` wrote. */
  function EntryOf(row: TreeRow): Entry
    requires row.mode.Some?
  {
    Entry(row.mode.value, row.name, Sha1As40CharacterString(row.sha1))
  }

  function EntriesOf(rows: seq<TreeRow>): (r: seq<Entry>)
    requires FileSystemRepository.HaveModes(rows)
    ensures |r| == |rows|
    ensures forall i :: 0 <= i < |rows| ==>
      r[i].mode == rows[i].mode.value && r[i].name == rows[i].name && r[i].sha1 == Sha1As40CharacterString(rows[i].sha1)
    decreases |rows|
  {
    if |rows| == 0 then [] else [EntryOf(rows[0])] + EntriesOf(rows[1..])
  }

  /** The pattern matches at `pos` when a digit run ending at `j`, a space,
      a non-empty name ending at the NUL at `k` and 20 bytes follow. */
  lemma EntryMatchAt(s: string, pos: nat, j: nat, k: nat)
    requires pos < j && j + 1 < k && k + 21 <= |s|
    requires forall m :: pos <= m < j ==> IsDigit(s[m])
    requires s[j] == ' ' && s[k] == '\0'
    requires forall m :: j < m < k ==> s[m] != '\0'
    ensures EntryMatch(s, pos) == Some((Entry(s[pos..j], s[j + 1..k], Sha1As40CharacterString(s[k + 1..k + 21])), k + 21))
  {
    DigitEndAt(s, pos, j);
    assert IsDigit(s[pos]);
    NulFromAt(s, j + 2, k);
  }

  /** A well-formed record's parts laid out from `pos`, as the pattern
      meets them. */
  lemma EntryMatchOfParts(s: string, pos: nat, row: TreeRow, j: nat, k: nat)
    requires FileSystemRepository.WellFormedRecord(row)
    requires j == pos + |row.mode.value| && k == j + 1 + |row.name| && k + 21 <= |s|
    requires s[pos..j] == row.mode.value && s[j] == ' ' && s[j + 1..k] == row.name && s[k] == '\0'
    requires s[k + 1..k + 21] == row.sha1
    ensures EntryMatch(s, pos) == Some((EntryOf(row), k + 21))
  {
    forall m | pos <= m < j
      ensures IsDigit(s[m])
    {
      assert s[m] == s[pos..j][m - pos];
    }
    forall m | j < m < k
      ensures s[m] != '\0'
    {
      assert s[m] == s[j + 1..k][m - j - 1];
    }
    EntryMatchAt(s, pos, j, k);
  }

  /** The checker's pattern matches a well-formed record exactly where its
      text starts, and ends where the text ends. */
  lemma EntryMatchOfText(s: string, pos: nat, row: TreeRow)
    requires FileSystemRepository.WellFormedRecord(row)
    requires pos + |FileSystemRepository.RecordText(row)| <= |s|
    requires s[pos..pos + |FileSystemRepository.RecordText(row)|] == FileSystemRepository.RecordText(row)
    ensures EntryMatch(s, pos) == Some((EntryOf(row), pos + |FileSystemRepository.RecordText(row)|))
  {
    FileSystemRepository.RecordTextAt(s, pos, row);
    var j := pos + |row.mode.value|;
    EntryMatchOfParts(s, pos, row, j, j + 1 + |row.name|);
  }

  /** The scan of the text of well-formed records from `pos` meets each
      record in turn. */
  lemma {:induction false} TreeEntriesText(s: string, pos: nat, rows: seq<TreeRow>)
    requires pos <= |s| && FileSystemRepository.WellFormedRecords(rows)
    requires s[pos..] == FileSystemRepository.RecordsText(rows)
    ensures TreeEntries(s, pos) == EntriesOf(rows)
    decreases |rows|
  {
    if |rows| == 0 {
      assert |s[pos..]| == 0;
    } else {
      var row := rows[0];
      var e := pos + |FileSystemRepository.RecordText(row)|;
      FileSystemRepository.RecordsTextFrom(s, pos, rows);
      EntryMatchOfText(s, pos, row);
      FileSystemRepository.WellFormedTail(rows);
      TreeEntriesText(s, e, rows[1..]);
    }
  }

  /** `check_tree` meets the entries of a tree `create_tree!` wrote one for
      one, in order, with the type's mode, the name and the hash as the
      entry gave it. */
  lemma TreeEntriesOfFormatted(entries: seq<EntrySpec>)
    requires FileSystemRepository.HexEntries(entries) && FileSystemRepository.ReadableNames(entries)
    requires forall i :: 0 <= i < |entries| ==> IsHexSha1(entries[i].sha1)
    requires FileSystemRepository.FormatTreeData(entries).Success?
    ensures var es := TreeEntries(FileSystemRepository.FormatTreeData(entries).value, 0);
      |es| == |entries| &&
      forall i :: 0 <= i < |entries| ==>
        es[i] == Entry(Modes.ModeForType(entries[i].objectType).value, entries[i].name, entries[i].sha1)
  {
    var rows := FileSystemRepository.FormatTreeRows(entries).value;
    assert FileSystemRepository.WellFormedRecords(rows) by {
      forall i | 0 <= i < |rows|
        ensures FileSystemRepository.WellFormedRecord(rows[i])
      {
        Modes.ModeForTypeIsValid(entries[i].objectType);
        FileSystemRepository.ValidModesAreDigits(rows[i].mode.value);
      }
    }
    var text := FileSystemRepository.RecordsText(rows);
    assert text[0..] == text;
    TreeEntriesText(text, 0, rows);
    EntriesOfAt(rows);
    forall i | 0 <= i < |entries|
      ensures EntriesOf(rows)[i] == Entry(Modes.ModeForType(entries[i].objectType).value, entries[i].name, entries[i].sha1)
    {
      Sha1As40IsHexString(rows[i].sha1);
    }
  }

  lemma {:induction false} EntriesOfAt(rows: seq<TreeRow>)
    requires FileSystemRepository.HaveModes(rows)
    ensures forall i :: 0 <= i < |rows| ==> EntriesOf(rows)[i] == EntryOf(rows[i])
    decreases |rows|
  {
    if |rows| > 0 {
      EntriesOfAt(rows[1..]);
      assert forall i :: 1 <= i < |rows| ==> rows[1..][i - 1] == rows[i];
    }
  }

  // ---------------------------------------------------------------------------
  // check_commit, check_tree, check_blob

  /** `@commits_already_checked`, `@trees_already_checked` and
      `@blobs_already_checked`: the hashes each check has passed. */
  datatype Marks = Marks(commits: set<string>, trees: set<string>, blobs: set<string>)

  /** Marks are only ever added. */
  predicate Grows(m: Marks, m2: Marks) {
    m.commits <= m2.commits && m.trees <= m2.trees && m.blobs <= m2.blobs
  }

  /** The three checks every object passes: its file reads as a `kind`
      object, its declared size is its data's size, and the digest of its
      whole content is its hash. */
  predicate Verified(s: Store, sha1: string, kind: string) {
    var r := ReadGitObject(s, Some(sha1));
    r.Success? && r.value.objectType == Some(kind) && r.value.data.Some? &&
    r.value.size == |r.value.data.value| && s.digest(r.value.raw) == sha1
  }

  /** A tree entry that the marks account for: a blob or executable file
      whose hash is a checked blob, or a tree whose hash is a checked tree. */
  predicate Routed(e: Entry, m: Marks) {
    ((e.mode == BlobMode || e.mode == ExecutableFileMode) && e.sha1 in m.blobs) ||
    (e.mode == TreeMode && e.sha1 in m.trees)
  }

  /** A checked commit: verified, with a tree row naming a checked tree and
      parent rows naming checked commits. */
  predicate CommitClosed(s: Store, m: Marks, c: string) {
    Verified(s, c, "commit") &&
    var links := ReadCommitLinks(ReadGitObject(s, Some(c)).value.data.value);
    links.Success? && links.value.tree.Some? && links.value.tree.value in m.trees &&
    forall i :: 0 <= i < |links.value.parents| ==> links.value.parents[i].Some? && links.value.parents[i].value in m.commits
  }

  /** A checked tree: verified, and every entry its data holds is accounted for. */
  predicate TreeClosed(s: Store, m: Marks, t: string) {
    Verified(s, t, "tree") &&
    var entries := TreeEntries(ReadGitObject(s, Some(t)).value.data.value, 0);
    forall i :: 0 <= i < |entries| ==> Routed(entries[i], m)
  }

  /** Every mark stands for a verified object all of whose links are marked:
      what a check that passes leaves behind is a verified, closed part of
      the object graph. */
  predicate Sound(s: Store, m: Marks) {
    (forall c :: c in m.commits ==> CommitClosed(s, m, c)) &&
    (forall t :: t in m.trees ==> TreeClosed(s, m, t)) &&
    (forall b :: b in m.blobs ==> Verified(s, b, "blob"))
  }

  lemma CommitClosedGrows(s: Store, m: Marks, m2: Marks, c: string)
    requires CommitClosed(s, m, c) && Grows(m, m2)
    ensures CommitClosed(s, m2, c)
  {
  }

  lemma TreeClosedGrows(s: Store, m: Marks, m2: Marks, t: string)
    requires TreeClosed(s, m, t) && Grows(m, m2)
    ensures TreeClosed(s, m2, t)
  {
    var entries := TreeEntries(ReadGitObject(s, Some(t)).value.data.value, 0);
    assert forall i :: 0 <= i < |entries| ==> Routed(entries[i], m2) by {
      forall i | 0 <= i < |entries|
        ensures Routed(entries[i], m2)
      {
        assert Routed(entries[i], m);
      }
    }
  }

  /** Adding a commit whose links are marked keeps the marks sound. */
  lemma MarkCommit(s: Store, m: Marks, c: string)
    requires CommitClosed(s, m, c)
    ensures Sound(s, m) ==> Sound(s, m.(commits := m.commits + {c}))
  {
    if !Sound(s, m) { return; }
    var m2 := m.(commits := m.commits + {c});
    forall x | x in m2.commits
      ensures CommitClosed(s, m2, x)
    {
      CommitClosedGrows(s, m, m2, x);
    }
    forall t | t in m2.trees
      ensures TreeClosed(s, m2, t)
    {
      TreeClosedGrows(s, m, m2, t);
    }
  }

  /** Adding a tree whose entries are accounted for keeps the marks sound. */
  lemma MarkTree(s: Store, m: Marks, t: string)
    requires TreeClosed(s, m, t)
    ensures Sound(s, m) ==> Sound(s, m.(trees := m.trees + {t}))
  {
    if !Sound(s, m) { return; }
    var m2 := m.(trees := m.trees + {t});
    forall x | x in m2.commits
      ensures CommitClosed(s, m2, x)
    {
      CommitClosedGrows(s, m, m2, x);
    }
    forall x | x in m2.trees
      ensures TreeClosed(s, m2, x)
    {
      TreeClosedGrows(s, m, m2, x);
    }
  }

  /** Adding a verified blob keeps the marks sound. */
  lemma MarkBlob(s: Store, m: Marks, b: string)
    requires Verified(s, b, "blob")
    ensures Sound(s, m) ==> Sound(s, m.(blobs := m.blobs + {b}))
  {
    if !Sound(s, m) { return; }
    var m2 := m.(blobs := m.blobs + {b});
    forall x | x in m2.commits
      ensures CommitClosed(s, m2, x)
    {
      CommitClosedGrows(s, m, m2, x);
    }
    forall x | x in m2.trees
      ensures TreeClosed(s, m2, x)
    {
      TreeClosedGrows(s, m, m2, x);
    }
  }

  /** `check_blob(blob_sha1)`: a hash already checked returns at once;
      otherwise the type, then the size (`nil.size` raising for a file with
      no NUL), then the digest are checked, and only then is the hash
      marked. */
  function CheckBlob(s: Store, m: Marks, sha1: string): (r: (Result<()>, Marks))
    ensures r.0.Success? <==> sha1 in m.blobs || Verified(s, sha1, "blob")
    ensures r.0.Success? ==> r.1 == m.(blobs := m.blobs + {sha1})
    ensures r.0.Failure? ==> r.1 == m
    ensures Sound(s, m) ==> Sound(s, r.1)
  {
    if sha1 in m.blobs then (Success(()), m)
    else
      var blob := ReadGitObject(s, Some(sha1));
      if blob.Failure? then (Failure(blob.error), m)
      else if blob.value.objectType != Some("blob") then (Failure(RuntimeError(">>> Invalid type")), m)
      else if blob.value.data.None? then (Failure(NoMethodError), m)
      else if blob.value.size != |blob.value.data.value| then (Failure(RuntimeError(">>> Invalid size")), m)
      else if s.digest(blob.value.raw) != sha1 then (Failure(RuntimeError(">>> Invalid SHA1")), m)
      else
        MarkBlob(s, m, sha1);
        (Success(()), m.(blobs := m.blobs + {sha1}))
  }

  /** `check_commit(commit_sha1)`: a hash already checked returns at once.
      Otherwise the commit is read and its rows split (`nil.split` raising
      when the file has no NUL, `nil.split` again when no row starts with
      `tree`); then its type, its size and its digest are checked, in that
      order; then its tree, then its parents in the order listed; only then
      is the hash marked. Each nested check takes one of `fuel` stack
      levels. */
  function CheckCommit(s: Store, m: Marks, sha1: Option<string>, fuel: nat): (r: (Result<()>, Marks))
    ensures Grows(m, r.1)
    ensures Sound(s, m) ==> Sound(s, r.1)
    ensures r.0.Success? ==> sha1.Some? && sha1.value in r.1.commits
    ensures sha1.Some? && sha1.value in m.commits ==> r == (Success(()), m)
    decreases fuel, 0, 0
  {
    if sha1.Some? && sha1.value in m.commits then (Success(()), m)
    else
      var commit := ReadGitObject(s, sha1);
      if commit.Failure? then (Failure(commit.error), m)
      else if commit.value.data.None? then (Failure(NoMethodError), m)
      else
        var data := commit.value.data.value;
        var links := ReadCommitLinks(data);
        if links.Failure? then (Failure(links.error), m)
        else if commit.value.objectType != Some("commit") then (Failure(RuntimeError(">>> Invalid type")), m)
        else if commit.value.size != |data| then (Failure(RuntimeError(">>> Invalid size")), m)
        else if s.digest(commit.value.raw) != sha1.value then (Failure(RuntimeError(">>> Invalid SHA1")), m)
        else if fuel == 0 then (Failure(StackLevelTooDeep), m)
        else
          var tree := CheckTree(s, m, links.value.tree, fuel - 1);
          if tree.0.Failure? then tree
          else
            var parents := CheckParents(s, tree.1, links.value.parents, 0, fuel - 1);
            if parents.0.Failure? then parents
            else
              assert CommitClosed(s, parents.1, sha1.value);
              MarkCommit(s, parents.1, sha1.value);
              (Success(()), parents.1.(commits := parents.1.commits + {sha1.value}))
  }

  /** `parents_sha1.each { |sha1| check_commit(sha1) }` from the `i`-th on:
      the first failure stops the loop. */
  function CheckParents(s: Store, m: Marks, ps: seq<Option<string>>, i: nat, fuel: nat): (r: (Result<()>, Marks))
    requires i <= |ps|
    ensures Grows(m, r.1)
    ensures Sound(s, m) ==> Sound(s, r.1)
    ensures r.0.Success? ==> forall k :: i <= k < |ps| ==> ps[k].Some? && ps[k].value in r.1.commits
    decreases fuel, 1, |ps| - i
  {
    if i == |ps| then (Success(()), m)
    else
      var c := CheckCommit(s, m, ps[i], fuel);
      if c.0.Failure? then c
      else CheckParents(s, c.1, ps, i + 1, fuel)
  }

  /** `check_tree(tree_sha1)`: a hash already checked returns at once.
      Otherwise the tree is read and its entries scanned (`nil.scan`
      raising when the file has no NUL); then its type, its size and its
      digest are checked, in that order; then every entry in order; only
      then is the hash marked. */
  function CheckTree(s: Store, m: Marks, sha1: Option<string>, fuel: nat): (r: (Result<()>, Marks))
    ensures Grows(m, r.1)
    ensures Sound(s, m) ==> Sound(s, r.1)
    ensures r.0.Success? ==> sha1.Some? && sha1.value in r.1.trees
    ensures sha1.Some? && sha1.value in m.trees ==> r == (Success(()), m)
    decreases fuel, 0, 0
  {
    if sha1.Some? && sha1.value in m.trees then (Success(()), m)
    else
      var tree := ReadGitObject(s, sha1);
      if tree.Failure? then (Failure(tree.error), m)
      else if tree.value.data.None? then (Failure(NoMethodError), m)
      else
        var data := tree.value.data.value;
        var entries := TreeEntries(data, 0);
        if tree.value.objectType != Some("tree") then (Failure(RuntimeError(">>> Invalid tree type")), m)
        else if tree.value.size != |data| then (Failure(RuntimeError(">>> Invalid size")), m)
        else if s.digest(tree.value.raw) != sha1.value then (Failure(RuntimeError(">>> Invalid SHA1")), m)
        else if fuel == 0 then (Failure(StackLevelTooDeep), m)
        else
          var checked := CheckEntries(s, m, entries, 0, fuel - 1);
          if checked.0.Failure? then checked
          else
            assert TreeClosed(s, checked.1, sha1.value);
            MarkTree(s, checked.1, sha1.value);
            (Success(()), checked.1.(trees := checked.1.trees + {sha1.value}))
  }

  /** The `case` on an entry's mode: blobs and executable files go to
      `check_blob`, trees to `check_tree`, and any other mode (a symbolic
      link's among them) raises. */
  function CheckEntry(s: Store, m: Marks, e: Entry, fuel: nat): (r: (Result<()>, Marks))
    ensures Grows(m, r.1)
    ensures Sound(s, m) ==> Sound(s, r.1)
    ensures r.0.Success? ==> Routed(e, r.1)
    ensures e.mode != BlobMode && e.mode != ExecutableFileMode && e.mode != TreeMode ==>
      r == (Failure(RuntimeError(">>> Unexpected object type")), m)
    decreases fuel, 1, 0
  {
    if e.mode == BlobMode || e.mode == ExecutableFileMode then CheckBlob(s, m, e.sha1)
    else if e.mode == TreeMode then CheckTree(s, m, Some(e.sha1), fuel)
    else (Failure(RuntimeError(">>> Unexpected object type")), m)
  }

  /** `tree_data.each` from the `i`-th entry: the first failure stops the loop. */
  function CheckEntries(s: Store, m: Marks, es: seq<Entry>, i: nat, fuel: nat): (r: (Result<()>, Marks))
    requires i <= |es|
    ensures Grows(m, r.1)
    ensures Sound(s, m) ==> Sound(s, r.1)
    ensures r.0.Success? ==> forall k :: i <= k < |es| ==> Routed(es[k], r.1)
    decreases fuel, 2, |es| - i
  {
    if i == |es| then (Success(()), m)
    else
      var c := CheckEntry(s, m, es[i], fuel);
      if c.0.Failure? then c
      else CheckEntries(s, c.1, es, i + 1, fuel)
  }

  /** `check_commit` on a commit it has not checked yet: the type, then the
      size, then the digest, each failing check naming itself and marking
      nothing. */
  lemma CommitChecksInOrder(s: Store, m: Marks, sha1: string, fuel: nat)
    requires sha1 !in m.commits
    requires ReadGitObject(s, Some(sha1)).Success? && ReadGitObject(s, Some(sha1)).value.data.Some?
    requires ReadCommitLinks(ReadGitObject(s, Some(sha1)).value.data.value).Success?
    ensures var c := ReadGitObject(s, Some(sha1)).value;
      var r := CheckCommit(s, m, Some(sha1), fuel);
      (c.objectType != Some("commit") ==> r == (Failure(RuntimeError(">>> Invalid type")), m)) &&
      (c.objectType == Some("commit") && c.size != |c.data.value| ==>
         r == (Failure(RuntimeError(">>> Invalid size")), m)) &&
      (c.objectType == Some("commit") && c.size == |c.data.value| && s.digest(c.raw) != sha1 ==>
         r == (Failure(RuntimeError(">>> Invalid SHA1")), m))
  {
  }

  /** `check_tree` on a tree it has not checked yet: the type, then the
      size, then the digest. */
  lemma TreeChecksInOrder(s: Store, m: Marks, sha1: string, fuel: nat)
    requires sha1 !in m.trees
    requires ReadGitObject(s, Some(sha1)).Success? && ReadGitObject(s, Some(sha1)).value.data.Some?
    ensures var t := ReadGitObject(s, Some(sha1)).value;
      var r := CheckTree(s, m, Some(sha1), fuel);
      (t.objectType != Some("tree") ==> r == (Failure(RuntimeError(">>> Invalid tree type")), m)) &&
      (t.objectType == Some("tree") && t.size != |t.data.value| ==>
         r == (Failure(RuntimeError(">>> Invalid size")), m)) &&
      (t.objectType == Some("tree") && t.size == |t.data.value| && s.digest(t.raw) != sha1 ==>
         r == (Failure(RuntimeError(">>> Invalid SHA1")), m))
  {
  }

  /** A verified commit's tree is checked first, with the marks as they
      were; its parents are checked only after it passes, with the marks it
      left, and a failure of either is the commit's failure. */
  lemma CommitChecksTreeFirst(s: Store, m: Marks, sha1: string, fuel: nat)
    requires sha1 !in m.commits && fuel > 0
    requires Verified(s, sha1, "commit")
    requires ReadCommitLinks(ReadGitObject(s, Some(sha1)).value.data.value).Success?
    ensures var links := ReadCommitLinks(ReadGitObject(s, Some(sha1)).value.data.value).value;
      var tree := CheckTree(s, m, links.tree, fuel - 1);
      var r := CheckCommit(s, m, Some(sha1), fuel);
      (tree.0.Failure? ==> r == tree) &&
      (tree.0.Success? ==>
         var parents := CheckParents(s, tree.1, links.parents, 0, fuel - 1);
         (parents.0.Failure? ==> r == parents) &&
         (parents.0.Success? ==> r == (Success(()), parents.1.(commits := parents.1.commits + {sha1}))))
  {
  }

  /** The modes `check_tree` accepts and where each goes. */
  lemma EntryRouting(s: Store, m: Marks, e: Entry, fuel: nat)
    ensures e.mode == BlobMode || e.mode == ExecutableFileMode ==> CheckEntry(s, m, e, fuel) == CheckBlob(s, m, e.sha1)
    ensures e.mode == TreeMode ==> CheckEntry(s, m, e, fuel) == CheckTree(s, m, Some(e.sha1), fuel)
    ensures e.mode == SymLinkMode ==> CheckEntry(s, m, e, fuel) == (Failure(RuntimeError(">>> Unexpected object type")), m)
  {
  }

  /** `check_commit branch_tip_hash` from a fresh run, nothing checked yet:
      on success every marked object is verified and closed, the tip among
      them, so every object reachable from the tip has passed its checks. */
  function CheckBranchTip(s: Store, tip: string, fuel: nat): (r: Result<Marks>)
    ensures r.Success? ==> Sound(s, r.value) && tip in r.value.commits
    ensures r.Success? ==> CommitClosed(s, r.value, tip) && Verified(s, tip, "commit")
  {
    var c := CheckCommit(s, Marks({}, {}, {}), Some(tip), fuel);
    if c.0.Failure? then Failure(c.0.error) else Success(c.1)
  }
}
