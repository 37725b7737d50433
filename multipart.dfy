/**
 * What `parseMultipartData` computes, as functions of the body: the boundary,
 * the parts, each part's headers, the Content-Disposition match and the
 * upload entry a part yields, and the fold of those over all parts.
 */
module Multipart {
  import opened Wrappers
  import opened PhpStrings
  import opened PhpArrays

  const DefaultType := "application/octet-stream"
  /** UPLOAD_ERR_OK */
  const UploadErrOk := 0

  /** One `$_FILES` entry; `tmpName` names a file of the temporary store by its index. */
  datatype Upload = Upload(name: string, mediaType: string, tmpName: nat, error: int, size: int)

  /**
   * The boundary: the body before its first CRLF. `None` when that prefix is
   * empty, because the body has no CRLF or starts with one: `explode` then
   * throws a ValueError.
   */
  function Boundary(body: string): (r: Option<string>)
    ensures r.None? <==> !Contains(body, "\r\n") || OccursAt(body, "\r\n", 0)
    ensures r.Some? ==> |r.value| > 0 && OccursAt(body, r.value + "\r\n", 0) && !Contains(r.value, "\r\n")
  {
    match IndexOf(body, "\r\n")
    case None => None
    case Some(i) =>
      if i == 0 then None
      else
        var b := body[..i];
        assert body[..i + 2] == b + "\r\n";
        assert !Contains(b, "\r\n") by {
          forall j: nat | j <= |b| ensures !OccursAt(b, "\r\n", j) {
            if j + 2 <= |b| {
              assert !OccursAt(body, "\r\n", j);
              assert b[j..j + 2] == body[j..j + 2];
            }
          }
        }
        Some(b)
  }

  /** The pieces of the body between boundaries, without the piece before the first one. */
  function Parts(body: string, boundary: string): seq<string>
    requires |boundary| > 0
  {
    Explode(boundary, body)[1..]
  }

  /** `$part == "--\r\n" || empty($part)`; PHP's `empty` also holds for "0". */
  predicate Skipped(part: string) {
    part == "--\r\n" || part == "" || part == "0"
  }

  /** A part header line split as `list($name, $value) = explode(':', $line)`; a missing value reads as "". */
  function HeaderField(line: string): (string, string) {
    var pieces := Explode(":", line);
    (ToLower(Trim(pieces[0])), Trim(if |pieces| > 1 then pieces[1] else ""))
  }

  function FieldName(line: string): string {
    HeaderField(line).0
  }

  function FieldValue(line: string): string {
    HeaderField(line).1
  }

  /** A part's header dictionary: a later line with the same name overwrites an earlier one. */
  function PartHeaders(lines: seq<string>): map<string, string> {
    AssignAll(map[], lines, FieldName, FieldValue)
  }

  /** A line with exactly one colon: the trimmed, lower-cased name before it and the trimmed value after it. */
  lemma HeaderFieldOneColon(name: string, value: string)
    requires !Contains(name, ":") && !Contains(value, ":")
    ensures HeaderField(name + ":" + value) == (ToLower(Trim(name)), Trim(value))
  {
    ExplodeSingleFirst(":", name, value);
    ExplodeWhole(":", value);
  }

  /** A split on ':' stops at the second colon: the value is only the text between the first two. */
  lemma {:induction false} HeaderFieldTruncates(name: string, value: string, rest: string)
    requires !Contains(name, ":") && !Contains(value, ":")
    ensures HeaderField(name + ":" + value + ":" + rest) == (ToLower(Trim(name)), Trim(value))
  {
    var line := name + ":" + value + ":" + rest;
    ExplodeSingleFirst(":", name, value + ":" + rest);
    assert line == name + ":" + (value + ":" + rest);
    ExplodeSingleFirst(":", value, rest);
  }

  /** A line without a colon is all name, with an empty value. */
  lemma HeaderFieldNoColon(line: string)
    requires !Contains(line, ":")
    ensures HeaderField(line) == (ToLower(Trim(line)), "")
  {
  }

  /** Splitting on a one-character delimiter: the first piece is the text before its first occurrence. */
  lemma {:induction false} ExplodeSingleFirst(d: string, a: string, b: string)
    requires |d| == 1 && !Contains(a, d)
    ensures Explode(d, a + d + b)[0] == a
    ensures Explode(d, a + d + b)[1..] == Explode(d, b)
  {
    var s := a + d + b;
    assert OccursAt(s, d, |a|) by {
      assert s[|a|..|a| + 1] == d;
    }
    forall j: nat | j < |a| ensures !OccursAt(s, d, j) {
      assert !OccursAt(a, d, j);
      assert s[j..j + 1] == a[j..j + 1];
    }
    assert IndexOf(s, d) == Some(|a|);
    assert s[..|a|] == a;
    assert s[|a| + |d|..] == b;
  }

  /** A part's header names map to the value of the last line with that name. */
  lemma PartHeadersAt(lines: seq<string>, name: string)
    ensures match LastWithKey(lines, FieldName, name)
      case Some(j) => name in PartHeaders(lines) && PartHeaders(lines)[name] == FieldValue(lines[j])
      case None => name !in PartHeaders(lines)
  {
    AssignAllAt(map[], lines, FieldName, FieldValue, name);
  }

  /** The length of the run of non-quote characters from `p`. */
  function RunLength(s: string, p: nat): (n: nat)
    requires p <= |s|
    ensures p + n <= |s|
    ensures forall i :: p <= i < p + n ==> s[i] != '"'
    ensures p + n == |s| || s[p + n] == '"'
    decreases |s| - p
  {
    if p == |s| || s[p] == '"' then 0 else 1 + RunLength(s, p + 1)
  }

  predicate QuoteFree(s: string) {
    forall i :: 0 <= i < |s| ==> s[i] != '"'
  }

  /** The text `name="<name>"; filename="<filename>"`. */
  function DispositionText(name: string, filename: string): string {
    "name=\"" + name + "\"; filename=\"" + filename + "\""
  }

  /**
   * The pattern `name="(?<name>[^"]+)"; filename="(?<filename>[^"]+)"` tried
   * at position `p`. A run of non-quotes must end at a quote, so the greedy
   * run is the only candidate and no backtracking is needed.
   */
  function MatchAt(s: string, p: nat): Option<(string, string)> {
    if !OccursAt(s, "name=\"", p) then None else MatchGroups(s, p + 6)
  }

  /** From the start of the name group: the name run, the text between the groups, then the file name group. */
  function MatchGroups(s: string, a: nat): Option<(string, string)>
    requires a <= |s|
  {
    var n := RunLength(s, a);
    if n == 0 || !OccursAt(s, "\"; filename=\"", a + n) then None
    else match FileGroup(s, a + n + 13)
      case None => None
      case Some(f) => Some((s[a..a + n], f))
  }

  /** The file name group at `b`: a non-empty run of non-quotes closed by a quote. */
  function FileGroup(s: string, b: nat): Option<string>
    requires b <= |s|
  {
    var m := RunLength(s, b);
    if m == 0 || !OccursAt(s, "\"", b + m) then None else Some(s[b..b + m])
  }

  /** The pattern matches at `p` with exactly these groups when the text there reads `name="n"; filename="f"` with non-empty quote-free n and f. */
  lemma MatchAtExact(s: string, p: nat, name: string, filename: string)
    ensures MatchAt(s, p) == Some((name, filename)) <==>
      |name| > 0 && |filename| > 0 && QuoteFree(name) && QuoteFree(filename) &&
      OccursAt(s, DispositionText(name, filename), p)
  {
    if MatchAt(s, p) == Some((name, filename)) {
      MatchAtSound(s, p);
    }
    if |name| > 0 && |filename| > 0 && QuoteFree(name) && QuoteFree(filename) && OccursAt(s, DispositionText(name, filename), p) {
      MatchAtComplete(s, p, name, filename);
    }
  }

  lemma MatchAtSound(s: string, p: nat)
    requires MatchAt(s, p).Some?
    ensures var m := MatchAt(s, p).value;
      |m.0| > 0 && |m.1| > 0 && QuoteFree(m.0) && QuoteFree(m.1) && OccursAt(s, DispositionText(m.0, m.1), p)
  {
    var r := MatchAt(s, p).value;
    assert OccursAt(s, "name=\"", p) && MatchGroups(s, p + 6) == Some(r);
    GroupsSound(s, p, r);
  }

  /** The groups MatchGroups reads after the opening literal spell out the disposition text. */
  lemma GroupsSound(s: string, p: nat, r: (string, string))
    requires OccursAt(s, "name=\"", p) && MatchGroups(s, p + 6) == Some(r)
    ensures |r.0| > 0 && |r.1| > 0 && QuoteFree(r.0) && QuoteFree(r.1) && OccursAt(s, DispositionText(r.0, r.1), p)
  {
    var a := p + 6;
    MatchGroupsSound(s, a);
    var n := RunLength(s, a);
    var b := a + n + 13;
    FileGroupSound(s, b);
    var m := RunLength(s, b);
    TextFromPieces(s, p, a, n, b, m, r.0, r.1);
  }

  /** What a successful MatchGroups read: a non-empty name run, the middle literal, and a file name group. */
  lemma MatchGroupsSound(s: string, a: nat)
    requires a <= |s| && MatchGroups(s, a).Some?
    ensures var n := RunLength(s, a);
      && n > 0 && OccursAt(s, "\"; filename=\"", a + n)
      && a + n + 13 <= |s| && FileGroup(s, a + n + 13).Some?
      && MatchGroups(s, a).value == (s[a..a + n], FileGroup(s, a + n + 13).value)
      && QuoteFree(s[a..a + n])
  {
    var n := RunLength(s, a);
    var g := s[a..a + n];
    forall i | 0 <= i < |g| ensures g[i] != '"' {
      assert g[i] == s[a + i];
    }
  }

  /** What a successful FileGroup read: a non-empty quote-free run closed by a quote. */
  lemma FileGroupSound(s: string, b: nat)
    requires b <= |s| && FileGroup(s, b).Some?
    ensures var m := RunLength(s, b);
      && m > 0 && OccursAt(s, "\"", b + m) && FileGroup(s, b).value == s[b..b + m]
      && QuoteFree(s[b..b + m])
  {
    var m := RunLength(s, b);
    var g := s[b..b + m];
    forall i | 0 <= i < |g| ensures g[i] != '"' {
      assert g[i] == s[b + i];
    }
  }

  /** The five pieces MatchAt reads spell out the disposition text. */
  lemma TextFromPieces(s: string, p: nat, a: nat, n: nat, b: nat, m: nat, name: string, filename: string)
    requires a == p + 6 && b == a + n + 13
    requires OccursAt(s, "name=\"", p)
    requires OccursAt(s, "\"; filename=\"", a + n)
    requires OccursAt(s, "\"", b + m)
    requires name == s[a..a + n] && filename == s[b..b + m]
    ensures OccursAt(s, DispositionText(name, filename), p)
  {
    var e := b + m + 1;
    SliceSplit(s, p, a, a + n);
    SliceSplit(s, p, a + n, b);
    SliceSplit(s, p, b, e - 1);
    SliceSplit(s, p, e - 1, e);
  }

  lemma SliceSplit(s: string, i: nat, j: nat, k: nat)
    requires i <= j <= k <= |s|
    ensures s[i..k] == s[i..j] + s[j..k]
  {
  }

  lemma MatchAtComplete(s: string, p: nat, name: string, filename: string)
    requires |name| > 0 && |filename| > 0 && QuoteFree(name) && QuoteFree(filename)
    requires OccursAt(s, DispositionText(name, filename), p)
    ensures MatchAt(s, p) == Some((name, filename))
  {
    CompleteHead(s, p, name, filename);
    CompleteTail(s, p, name, filename);
    MatchAtPieces(s, p, name, filename);
  }

  /** The opening literal and the name group of a matching text. */
  lemma CompleteHead(s: string, p: nat, name: string, filename: string)
    requires |name| > 0 && QuoteFree(name)
    requires OccursAt(s, DispositionText(name, filename), p)
    ensures OccursAt(s, "name=\"", p)
    ensures s[p + 6..p + 6 + |name|] == name && RunLength(s, p + 6) == |name|
    ensures OccursAt(s, "\"; filename=\"", p + 6 + |name|)
  {
    var t := DispositionText(name, filename);
    DispositionTextParts(name, filename);
    OccursSlice(s, t, p, 0, 6);
    GroupAt(s, t, p, 6, name);
    OccursSlice(s, t, p, 6 + |name|, 19 + |name|);
  }

  /** The file name group and the closing quote of a matching text. */
  lemma CompleteTail(s: string, p: nat, name: string, filename: string)
    requires |filename| > 0 && QuoteFree(filename)
    requires OccursAt(s, DispositionText(name, filename), p)
    ensures s[p + 19 + |name|..p + 19 + |name| + |filename|] == filename
    ensures RunLength(s, p + 19 + |name|) == |filename|
    ensures OccursAt(s, "\"", p + 19 + |name| + |filename|)
  {
    var t := DispositionText(name, filename);
    DispositionTextParts(name, filename);
    GroupAt(s, t, p, 19 + |name|, filename);
    OccursSlice(s, t, p, |t| - 1, |t|);
  }

  /** A quote-free group followed by a quote in the matched text is exactly the run of non-quotes there. */
  lemma GroupAt(s: string, t: string, p: nat, i: nat, g: string)
    requires OccursAt(s, t, p) && i + |g| < |t|
    requires t[i..i + |g|] == g && t[i + |g|] == '"' && QuoteFree(g)
    ensures s[p + i..p + i + |g|] == g
    ensures RunLength(s, p + i) == |g|
  {
    OccursSlice(s, t, p, i, i + |g|);
    OccursSlice(s, t, p, i + |g|, i + |g| + 1);
    assert s[p + i + |g|] == s[p + i + |g|..p + i + |g| + 1][0];
    forall k | p + i <= k < p + i + |g| ensures s[k] != '"' {
      assert s[k] == g[k - p - i];
    }
    RunLengthExact(s, p + i, |g|);
  }

  /** MatchAt from the five pieces of the text it reads. */
  lemma MatchAtPieces(s: string, p: nat, name: string, filename: string)
    requires |name| > 0 && |filename| > 0
    requires OccursAt(s, "name=\"", p)
    requires RunLength(s, p + 6) == |name| && s[p + 6..p + 6 + |name|] == name
    requires OccursAt(s, "\"; filename=\"", p + 6 + |name|)
    requires RunLength(s, p + 19 + |name|) == |filename|
    requires s[p + 19 + |name|..p + 19 + |name| + |filename|] == filename
    requires OccursAt(s, "\"", p + 19 + |name| + |filename|)
    ensures MatchAt(s, p) == Some((name, filename))
  {
    var a := p + 6;
    var b := p + 19 + |name|;
    FileGroupAt(s, b, filename);
    MatchGroupsAt(s, a, b, name, filename);
  }

  lemma FileGroupAt(s: string, b: nat, filename: string)
    requires b <= |s| && |filename| > 0 && RunLength(s, b) == |filename|
    requires s[b..b + |filename|] == filename && OccursAt(s, "\"", b + |filename|)
    ensures FileGroup(s, b) == Some(filename)
  {
  }

  lemma MatchGroupsAt(s: string, a: nat, b: nat, name: string, filename: string)
    requires a <= |s| && |name| > 0 && RunLength(s, a) == |name| && s[a..a + |name|] == name
    requires OccursAt(s, "\"; filename=\"", a + |name|)
    requires b == a + |name| + 13 && FileGroup(s, b) == Some(filename)
    ensures MatchGroups(s, a) == Some((name, filename))
  {
    var n := RunLength(s, a);
    assert n == |name| && n != 0;
    assert s[a..a + n] == name;
  }

  lemma DispositionTextParts(name: string, filename: string)
    ensures var t := DispositionText(name, filename);
      && |t| == 20 + |name| + |filename|
      && t[..6] == "name=\""
      && t[6..6 + |name|] == name
      && t[6 + |name|] == '"'
      && t[19 + |name| + |filename|] == '"'
      && t[6 + |name|..19 + |name|] == "\"; filename=\""
      && t[19 + |name|..19 + |name| + |filename|] == filename
      && t[|t| - 1..] == "\""
  {
  }

  lemma OccursSlice(s: string, t: string, p: nat, i: nat, j: nat)
    requires OccursAt(s, t, p) && i <= j <= |t|
    ensures s[p + i..p + j] == t[i..j]
  {
    forall k | 0 <= k < j - i ensures s[p + i..p + j][k] == t[i..j][k] {
      assert s[p..p + |t|][i + k] == t[i + k];
    }
  }

  lemma {:induction false} RunLengthExact(s: string, p: nat, n: nat)
    requires p + n < |s| && s[p + n] == '"'
    requires forall i :: p <= i < p + n ==> s[i] != '"'
    ensures RunLength(s, p) == n
    decreases n
  {
    if n > 0 {
      RunLengthExact(s, p + 1, n - 1);
    }
  }

  /** Where `preg_match` finds its match: the leftmost position the pattern matches at. */
  function MatchIndex(s: string, p: nat): (r: Option<nat>)
    ensures r.Some? ==> p <= r.value <= |s| && MatchAt(s, r.value).Some?
    ensures r.Some? ==> forall j :: p <= j < r.value ==> MatchAt(s, j).None?
    ensures r.None? ==> forall q :: p <= q <= |s| ==> MatchAt(s, q).None?
    decreases |s| - p
  {
    if p > |s| then None
    else if MatchAt(s, p).Some? then Some(p)
    else MatchIndex(s, p + 1)
  }

  /** The leftmost position the pattern matches at is where the search stops. */
  lemma {:induction false} MatchIndexAt(s: string, p: nat, k: nat)
    requires p <= k <= |s| && MatchAt(s, k).Some?
    requires forall j :: p <= j < k ==> MatchAt(s, j).None?
    ensures MatchIndex(s, p) == Some(k)
    decreases k - p
  {
    if p < k {
      MatchIndexAt(s, p + 1, k);
    }
  }

  /** The groups of the leftmost match. */
  function DispositionMatch(s: string): Option<(string, string)> {
    match MatchIndex(s, 0)
    case None => None
    case Some(q) => MatchAt(s, q)
  }

  /** What a part contributes when it is a file upload: field, file name, declared type and stored content. */
  datatype FilePart = FilePart(field: string, filename: string, mediaType: string, content: string)

  /** The upload a part yields, if any. */
  function PartFile(part: string): Option<FilePart> {
    if Skipped(part) then None
    else
      var split := ExplodeOnce("\r\n\r\n", part);
      var headers := PartHeaders(Explode("\r\n", split.0));
      if "content-disposition" !in headers then None
      else match DispositionMatch(headers["content-disposition"])
        case None => None
        case Some(m) =>
          Some(FilePart(m.0, m.1,
            if "content-type" in headers then headers["content-type"] else DefaultType,
            TrimCrLfRight(split.1.GetOr(""))))
  }

  /** A part's header lines: the text before its first blank line, split at each CRLF. */
  function HeaderLines(part: string): seq<string> {
    Explode("\r\n", ExplodeOnce("\r\n\r\n", part).0)
  }

  /**
   * A part yields an upload exactly when it is not skipped, has a
   * Content-Disposition line, and the last such line matches the pattern;
   * a part whose disposition does not match is dropped, not reported.
   */
  lemma PartFileYields(part: string)
    ensures PartFile(part).Some? <==>
      && !Skipped(part)
      && var lines := HeaderLines(part);
         match LastWithKey(lines, FieldName, "content-disposition")
         case None => false
         case Some(j) => DispositionMatch(FieldValue(lines[j])).Some?
  {
    PartHeadersAt(HeaderLines(part), "content-disposition");
  }

  /**
   * An upload's field and file name are the two groups of the pattern in the
   * part's last Content-Disposition line; its type is the value of the last
   * Content-Type line, or application/octet-stream when there is none.
   */
  lemma PartFileUpload(part: string)
    requires PartFile(part).Some?
    ensures var lines, f := HeaderLines(part), PartFile(part).value;
      && LastWithKey(lines, FieldName, "content-disposition").Some?
      && DispositionMatch(FieldValue(lines[LastWithKey(lines, FieldName, "content-disposition").value]))
         == Some((f.field, f.filename))
      && f.mediaType == match LastWithKey(lines, FieldName, "content-type")
                        case Some(j) => FieldValue(lines[j])
                        case None => DefaultType
  {
    PartHeadersAt(HeaderLines(part), "content-disposition");
    PartHeadersAt(HeaderLines(part), "content-type");
  }

  /** A part none of whose header lines is named Content-Disposition yields nothing. */
  lemma NoDispositionNoUpload(part: string)
    requires var lines := HeaderLines(part);
      forall j :: 0 <= j < |lines| ==> FieldName(lines[j]) != "content-disposition"
    ensures PartFile(part) == None
  {
    PartHeadersAt(HeaderLines(part), "content-disposition");
  }

  /** `$_FILES` and the temporary file store. */
  datatype Store = Store(files: map<string, Upload>, temp: seq<string>)

  /** What each part yields, in order. */
  function Uploads(parts: seq<string>): (r: seq<Option<FilePart>>)
    ensures |r| == |parts|
    ensures forall i :: 0 <= i < |parts| ==> r[i] == PartFile(parts[i])
  {
    seq(|parts|, i requires 0 <= i < |parts| => PartFile(parts[i]))
  }

  /** A fresh temporary file receives the content; the entry under the field name is replaced. */
  function Record(st: Store, f: FilePart): Store {
    Store(st.files[f.field := Upload(f.filename, f.mediaType, |st.temp|, UploadErrOk, |f.content|)],
          st.temp + [f.content])
  }

  function Step(st: Store, u: Option<FilePart>): Store {
    match u
    case None => st
    case Some(f) => Record(st, f)
  }

  /** The loop over the parts, in order. */
  function Collect(st: Store, ups: seq<Option<FilePart>>): Store
    decreases |ups|
  {
    if |ups| == 0 then st else Step(Collect(st, ups[..|ups| - 1]), ups[|ups| - 1])
  }

  /** The whole of parseMultipartData: `None` when the boundary is empty and explode throws. */
  function ParseBody(body: string, temp: seq<string>): Option<Store> {
    match Boundary(body)
    case None => None
    case Some(b) => Some(Collect(Store(map[], temp), Uploads(Parts(body, b))))
  }

  /** Every entry names a file of the store whose length is its size, with no error code. */
  predicate Consistent(st: Store) {
    forall field :: field in st.files ==>
      var u := st.files[field];
      u.tmpName < |st.temp| && u.size == |st.temp[u.tmpName]| && u.error == UploadErrOk
  }

  /** The loop keeps every entry's size equal to its stored file, and never removes a stored file. */
  lemma {:induction false} CollectConsistent(st: Store, ups: seq<Option<FilePart>>)
    requires Consistent(st)
    ensures Consistent(Collect(st, ups))
    ensures |st.temp| <= |Collect(st, ups).temp|
    ensures Collect(st, ups).temp[..|st.temp|] == st.temp
    decreases |ups|
  {
    if |ups| > 0 {
      CollectConsistent(st, ups[..|ups| - 1]);
    }
  }

  predicate UploadsTo(u: Option<FilePart>, field: string) {
    u.Some? && u.value.field == field
  }

  /** The last part that uploads under `field`. */
  function LastUpload(ups: seq<Option<FilePart>>, field: string): (r: Option<nat>)
    ensures r.Some? ==> r.value < |ups| && UploadsTo(ups[r.value], field)
    ensures r.Some? ==> forall j :: r.value < j < |ups| ==> !UploadsTo(ups[j], field)
    ensures r.None? ==> forall j :: 0 <= j < |ups| ==> !UploadsTo(ups[j], field)
    decreases |ups|
  {
    if |ups| == 0 then None
    else if UploadsTo(ups[|ups| - 1], field) then Some(|ups| - 1)
    else LastUpload(ups[..|ups| - 1], field)
  }

  /**
   * A field's entry comes from the last part that uploads under that name:
   * its file name and type, with the stored content that part's content.
   * A field no part uploads keeps its previous entry, if any.
   */
  lemma {:induction false} CollectLastWins(st: Store, ups: seq<Option<FilePart>>, field: string)
    ensures var r := Collect(st, ups);
      match LastUpload(ups, field)
      case Some(j) =>
        var f := ups[j].value;
        && field in r.files
        && r.files[field].name == f.filename
        && r.files[field].mediaType == f.mediaType
        && r.files[field].tmpName < |r.temp|
        && r.temp[r.files[field].tmpName] == f.content
      case None =>
        (field in r.files <==> field in st.files) && (field in st.files ==> r.files[field] == st.files[field])
    decreases |ups|
  {
    if |ups| > 0 {
      var prefix := ups[..|ups| - 1];
      CollectLastWins(st, prefix, field);
      var before := Collect(st, prefix);
      match ups[|ups| - 1]
      case None =>
      case Some(f) =>
        if f.field != field {
          match LastUpload(prefix, field)
          case Some(j) =>
            assert before.temp[before.files[field].tmpName] == (before.temp + [f.content])[before.files[field].tmpName];
          case None =>
        }
    }
  }

  function UploadCount(ups: seq<Option<FilePart>>): nat
    decreases |ups|
  {
    if |ups| == 0 then 0
    else UploadCount(ups[..|ups| - 1]) + (if ups[|ups| - 1].Some? then 1 else 0)
  }

  /** The store gains one file per uploading part, even when a later part replaces the entry. */
  lemma {:induction false} CollectTempCount(st: Store, ups: seq<Option<FilePart>>)
    ensures |Collect(st, ups).temp| == |st.temp| + UploadCount(ups)
    decreases |ups|
  {
    if |ups| > 0 {
      CollectTempCount(st, ups[..|ups| - 1]);
    }
  }

  /** The stored content never ends in CR or LF, and is the part body with only such characters removed. */
  lemma PartFileContent(part: string)
    requires PartFile(part).Some?
    ensures var c := PartFile(part).value.content;
      var raw := ExplodeOnce("\r\n\r\n", part).1.GetOr("");
      && (c == [] || !IsCrOrLf(c[|c| - 1]))
      && raw[..|c|] == c
      && forall i :: |c| <= i < |raw| ==> IsCrOrLf(raw[i])
  {
  }

  /**
   * The uploads of a parsed body: a field has an entry exactly when some part
   * uploads under it; the entry is the last such part's, with error code OK,
   * a fresh temporary file (the files that were there are kept), and a size
   * equal to that file's length. The file holds the part's content minus
   * trailing CR/LF.
   */
  lemma ParseBodyFiles(body: string, temp: seq<string>, field: string)
    requires ParseBody(body, temp).Some?
    ensures var st := ParseBody(body, temp).value;
      var ups := Uploads(Parts(body, Boundary(body).value));
      && |temp| <= |st.temp| && st.temp[..|temp|] == temp
      && (field in st.files <==> exists j :: 0 <= j < |ups| && UploadsTo(ups[j], field))
      && (field in st.files ==>
            var u := st.files[field];
            var j := LastUpload(ups, field).value;
            && u.name == ups[j].value.filename
            && u.mediaType == ups[j].value.mediaType
            && u.error == UploadErrOk
            && |temp| <= u.tmpName < |st.temp|
            && st.temp[u.tmpName] == ups[j].value.content
            && u.size == |st.temp[u.tmpName]|)
  {
    var ups := Uploads(Parts(body, Boundary(body).value));
    var start := Store(map[], temp);
    var st := Collect(start, ups);
    CollectConsistent(start, ups);
    CollectLastWins(start, ups, field);
    CollectFreshFiles(start, ups, field);
  }

  /** An entry added by the loop names a file the loop created. */
  lemma {:induction false} CollectFreshFiles(st: Store, ups: seq<Option<FilePart>>, field: string)
    requires field !in st.files
    ensures var r := Collect(st, ups);
      field in r.files ==> |st.temp| <= r.files[field].tmpName
    decreases |ups|
  {
    if |ups| > 0 {
      CollectFreshFiles(st, ups[..|ups| - 1], field);
      CollectGrows(st, ups[..|ups| - 1]);
    }
  }

  lemma {:induction false} CollectGrows(st: Store, ups: seq<Option<FilePart>>)
    ensures |st.temp| <= |Collect(st, ups).temp|
    decreases |ups|
  {
    if |ups| > 0 {
      CollectGrows(st, ups[..|ups| - 1]);
    }
  }
}
