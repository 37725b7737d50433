/**
 * A body with one file part, worked through the parser: field `f`, file
 * `t.txt`, content `hello`. The boundary line is `##`.
 */
module MultipartExample {
  import opened Wrappers
  import opened PhpStrings
  import opened PhpArrays
  import opened Multipart

  const DispositionName := "Content-Disposition"
  const DispositionValue := " form-data; name=\"f\"; filename=\"t.txt\""
  const Disposition := DispositionName + ":" + DispositionValue
  const PartText := "\r\n" + Disposition + "\r\n\r\nhello\r\n"
  /** The boundary line `##`, the part, then the closing `##--`. */
  const Body := "##" + PartText + "##--\r\n"

  /** No occurrence can start inside `a` when `a` lacks the delimiter's first character. */
  lemma NoLeadChar(a: string, d: string, b: string)
    requires |d| > 0 && forall i :: 0 <= i < |a| ==> a[i] != d[0]
    ensures forall j: nat :: j < |a| ==> !OccursAt(a + d + b, d, j)
  {
    forall j: nat | j < |a| ensures !OccursAt(a + d + b, d, j) {
      if j + |d| <= |a + d + b| {
        assert (a + d + b)[j..j + |d|][0] == a[j];
      }
    }
  }

  lemma NoLeadCharWhole(s: string, d: string)
    requires |d| > 0 && forall i :: 0 <= i < |s| ==> s[i] != d[0]
    ensures !Contains(s, d)
  {
    forall j: nat | j <= |s| ensures !OccursAt(s, d, j) {
      if j + |d| <= |s| {
        assert s[j..j + |d|][0] == s[j];
      }
    }
  }

  lemma BoundaryOfBody()
    ensures Boundary(Body) == Some("##")
  {
    assert OccursAt(Body, "\r\n", 2) by { assert Body[2..4] == "\r\n"; }
    assert Body[0] == '#' && Body[1] == '#';
    assert Body[0..2][0] == '#' && Body[1..3][0] == '#';
    assert IndexOf(Body, "\r\n") == Some(2);
    assert Body[..2] == "##";
  }

  predicate Lacks(s: string, c: char) {
    forall i :: 0 <= i < |s| ==> s[i] != c
  }

  /** Reads a short literal character by character. */
  lemma LiteralLacks(s: string, lit: string, c: char)
    requires s == lit && |lit| <= 40 && c !in lit
    ensures Lacks(s, c)
  {
  }

  lemma LacksConcat(a: string, b: string, c: char)
    requires Lacks(a, c) && Lacks(b, c)
    ensures Lacks(a + b, c)
  {
    forall i | 0 <= i < |a + b| ensures (a + b)[i] != c {
      if i >= |a| {
        assert (a + b)[i] == b[i - |a|];
      }
    }
  }

  lemma ExplodeTail()
    ensures Explode("##", PartText + "##" + "--\r\n") == [PartText, "--\r\n"]
  {
    PartTextNoHash();
    NoLeadChar(PartText, "##", "--\r\n");
    ExplodeSplit("##", PartText, "--\r\n");
    NoLeadCharWhole("--\r\n", "##");
    ExplodeWhole("##", "--\r\n");
  }

  lemma PartsOfBody()
    ensures Parts(Body, "##") == [PartText, "--\r\n"]
  {
    var rest := PartText + "##" + "--\r\n";
    assert Body == "" + "##" + rest by {
      assert "##--\r\n" == "##" + "--\r\n";
      ConcatAssoc("##", PartText, "##--\r\n");
      ConcatAssoc(PartText, "##", "--\r\n");
    }
    ExplodeSplit("##", "", rest);
    ExplodeTail();
  }

  const HeaderBlock := "\r\n" + Disposition
  const Content := "hello\r\n"
  /** The Content-Disposition value once trimmed: the pattern sits after `form-data; `. */
  const Trimmed := "form-data; " + DispositionText("f", "t.txt")

  lemma DispositionLacks(c: char)
    requires c == '#' || c == '\r' || c == ':'
    ensures Lacks(DispositionName, c) && Lacks(DispositionValue, c)
    ensures c != ':' ==> Lacks(Disposition, c)
  {
    DispositionNameLacks(c);
    DispositionValueLacks(c);
    if c != ':' {
      LacksConcat(DispositionName, ":", c);
      LacksConcat(DispositionName + ":", DispositionValue, c);
    }
  }

  lemma DispositionNameLacks(c: char)
    requires c == '#' || c == '\r' || c == ':'
    ensures Lacks(DispositionName, c)
  {
    LiteralLacks(DispositionName, "Content-Disposition", c);
  }

  lemma DispositionValueLacks(c: char)
    requires c == '#' || c == '\r' || c == ':'
    ensures Lacks(DispositionValue, c)
  {
    LiteralLacks(DispositionValue, " form-data; name=\"f\"; filename=\"t.txt\"", c);
  }

  lemma PartTextNoHash()
    ensures Lacks(PartText, '#')
  {
    DispositionLacks('#');
    LacksConcat("\r\n", Disposition, '#');
    LacksConcat("\r\n" + Disposition, "\r\n\r\nhello\r\n", '#');
  }

  /** The blank line splits the part into the header block and the content. */
  lemma SplitPartText()
    ensures ExplodeOnce("\r\n\r\n", PartText) == (HeaderBlock, Some(Content))
  {
    var d := "\r\n\r\n";
    assert PartText == HeaderBlock + d + Content;
    NoEarlyBlankLine();
    ExplodeSplit(d, HeaderBlock, Content);
    ContentNoBlankLine();
    ExplodeWhole(d, Content);
  }

  lemma NoEarlyBlankLine()
    ensures forall j: nat :: j < |HeaderBlock| ==> !OccursAt(HeaderBlock + "\r\n\r\n" + Content, "\r\n\r\n", j)
  {
    var s := HeaderBlock + "\r\n\r\n" + Content;
    DispositionLacks('\r');
    forall j: nat | j < |HeaderBlock| ensures !OccursAt(s, "\r\n\r\n", j) {
      if j >= 2 {
        assert s[j] == Disposition[j - 2];
        assert s[j..j + 4][0] == s[j];
      } else {
        assert s[2] == 'C';
        assert s[j..j + 4][2 - j] == s[2];
      }
    }
  }

  lemma ContentNoBlankLine()
    ensures !Contains(Content, "\r\n\r\n")
  {
    forall j: nat | j <= |Content| ensures !OccursAt(Content, "\r\n\r\n", j) {
      if j + 4 <= |Content| {
        assert Content[j..j + 4][0] == Content[j];
      }
    }
  }

  /** The header block is an empty line followed by the Content-Disposition line. */
  lemma HeaderBlockLines()
    ensures Explode("\r\n", HeaderBlock) == ["", Disposition]
  {
    DispositionOneLine();
    LeadingEmpty("\r\n", Disposition);
  }

  /** A text that starts with the delimiter splits into an empty piece and the pieces of the rest. */
  lemma LeadingEmpty(d: string, rest: string)
    requires |d| > 0 && Explode(d, rest) == [rest]
    ensures Explode(d, d + rest) == ["", rest]
  {
    var s := d + rest;
    assert OccursAt(s, d, 0) by {
      assert s[..|d|] == d;
    }
    assert IndexOf(s, d) == Some(0);
    assert s[|d|..] == rest;
  }

  lemma DispositionOneLine()
    ensures Explode("\r\n", Disposition) == [Disposition]
  {
    DispositionLacks('\r');
    NoLeadCharWhole(Disposition, "\r\n");
    ExplodeWhole("\r\n", Disposition);
  }

  lemma EmptyLineField()
    ensures HeaderField("") == ("", "")
  {
    assert !Contains("", ":") by {
      forall j: nat | j <= 0 ensures !OccursAt("", ":", j) { }
    }
    ExplodeWhole(":", "");
    TrimPadding("", "", "");
    assert "" + "" + "" == "";
  }

  lemma LowerDispositionName()
    ensures ToLower(DispositionName) == "content-disposition"
  {
    var l := ToLower(DispositionName);
    assert l == [l[0], l[1], l[2], l[3], l[4], l[5], l[6], l[7], l[8], l[9],
                 l[10], l[11], l[12], l[13], l[14], l[15], l[16], l[17], l[18]];
  }

  lemma ExplodeDisposition()
    ensures Explode(":", Disposition) == [DispositionName, DispositionValue]
  {
    DispositionLacks(':');
    assert Disposition == DispositionName + ":" + DispositionValue;
    NoLeadChar(DispositionName, ":", DispositionValue);
    ExplodeSplit(":", DispositionName, DispositionValue);
    NoLeadCharWhole(DispositionValue, ":");
    ExplodeWhole(":", DispositionValue);
  }

  lemma TrimDispositionName()
    ensures Trim(DispositionName) == DispositionName
  {
    assert DispositionName == "" + DispositionName + "";
    TrimPadding("", DispositionName, "");
  }

  lemma TrimDispositionValue()
    ensures Trim(DispositionValue) == Trimmed
  {
    assert DispositionValue == " " + Trimmed + "";
    TrimPadding(" ", Trimmed, "");
  }

  /** The Content-Disposition line's name is lower-cased and its value trimmed of the leading space. */
  lemma DispositionField()
    ensures HeaderField(Disposition) == ("content-disposition", Trimmed)
  {
    ExplodeDisposition();
    TrimDispositionName();
    LowerDispositionName();
    TrimDispositionValue();
  }

  lemma AssignTwo<T, K, V>(m: map<K, V>, x: T, y: T, key: T -> K, val: T -> V)
    ensures AssignAll(m, [x, y], key, val) == m[key(x) := val(x)][key(y) := val(y)]
  {
    assert [x][..0] == [];
    assert AssignAll(m, [x], key, val) == m[key(x) := val(x)];
    assert [x, y][..1] == [x];
  }

  /** The part's header array: the empty first line files an empty value under the empty name. */
  lemma PartTextHeaders()
    ensures PartHeaders(Explode("\r\n", HeaderBlock)) == map["" := "", "content-disposition" := Trimmed]
  {
    HeaderBlockLines();
    AssignTwo(map[], "", Disposition, FieldName, FieldValue);
    EmptyLineField();
    DispositionField();
  }

  /** The pattern is found after `form-data; `, with field `f` and file name `t.txt`. */
  lemma TrimmedMatch()
    ensures DispositionMatch(Trimmed) == Some(("f", "t.txt"))
  {
    PatternAfterPrefix();
    NoEarlyMatch();
    MatchIndexAt(Trimmed, 0, 11);
  }

  lemma PatternAfterPrefix()
    ensures MatchAt(Trimmed, 11) == Some(("f", "t.txt"))
  {
    var t := DispositionText("f", "t.txt");
    assert Trimmed[11..11 + |t|] == t;
    MatchAtComplete(Trimmed, 11, "f", "t.txt");
  }

  lemma NoEarlyMatch()
    ensures forall j :: 0 <= j < 11 ==> MatchAt(Trimmed, j).None?
  {
    var prefix := "form-data; ";
    assert forall i :: 0 <= i < |prefix| ==> prefix[i] != 'n';
    NoMatchInPrefix(prefix, DispositionText("f", "t.txt"));
  }

  /** The pattern starts with `n`, so it cannot start inside a prefix without one. */
  lemma NoMatchInPrefix(prefix: string, rest: string)
    requires forall i :: 0 <= i < |prefix| ==> prefix[i] != 'n'
    ensures forall j :: 0 <= j < |prefix| ==> MatchAt(prefix + rest, j).None?
  {
    var s := prefix + rest;
    forall j | 0 <= j < |prefix| ensures !OccursAt(s, "name=\"", j) {
      if j + 6 <= |s| {
        assert s[j..j + 6][0] == s[j] == prefix[j];
      }
    }
  }

  lemma TrimContent()
    ensures TrimCrLfRight(Content) == "hello"
  {
    assert Content[..|Content| - 1] == "hello\r";
    assert "hello\r"[..5] == "hello";
  }

  /** The part yields the upload of `t.txt` under `f`, with the default type and content `hello`. */
  lemma PartTextFile()
    ensures PartFile(PartText) == Some(FilePart("f", "t.txt", DefaultType, "hello"))
  {
    assert !Skipped(PartText) by {
      assert |PartText| > 4;
    }
    SplitPartText();
    PartTextHeaders();
    TrimmedMatch();
    TrimContent();
    NoTypeHeader(Trimmed);
    PartFileFrom(PartText, HeaderBlock, Some(Content), map["" := "", "content-disposition" := Trimmed], ("f", "t.txt"));
  }

  lemma NoTypeHeader(v: string)
    ensures "content-type" !in map["" := "", "content-disposition" := v]
  {
    assert "content-type"[8] != "content-disposition"[8];
  }

  /** PartFile from its intermediate values: the split, the header array and the match. */
  lemma PartFileFrom(part: string, block: string, content: Option<string>, headers: map<string, string>,
                     m: (string, string))
    requires !Skipped(part) && ExplodeOnce("\r\n\r\n", part) == (block, content)
    requires PartHeaders(Explode("\r\n", block)) == headers
    requires "content-disposition" in headers && DispositionMatch(headers["content-disposition"]) == Some(m)
    ensures PartFile(part) == Some(FilePart(m.0, m.1,
      if "content-type" in headers then headers["content-type"] else DefaultType,
      TrimCrLfRight(content.GetOr(""))))
  {
  }

  /**
   * The whole body yields exactly one upload: `$_FILES['f']` names `t.txt`
   * with the default type, error code OK, size 5, and a new temporary file
   * holding exactly `hello`, without the CRLF before the closing boundary.
   */
  lemma OneFileBody(temp: seq<string>)
    ensures ParseBody(Body, temp) ==
      Some(Store(map["f" := Upload("t.txt", DefaultType, |temp|, UploadErrOk, 5)], temp + ["hello"]))
  {
    BoundaryOfBody();
    PartsOfBody();
    BodyUploads();
    CollectOne(temp, FilePart("f", "t.txt", DefaultType, "hello"));
  }

  lemma BodyUploads()
    ensures Uploads([PartText, "--\r\n"]) == [Some(FilePart("f", "t.txt", DefaultType, "hello")), None]
  {
    UploadsPair(PartText, "--\r\n");
    PartTextFile();
    ClosingPartSkipped();
  }

  lemma UploadsPair(a: string, b: string)
    ensures Uploads([a, b]) == [PartFile(a), PartFile(b)]
  {
  }

  lemma ClosingPartSkipped()
    ensures PartFile("--\r\n") == None
  {
    assert Skipped("--\r\n");
  }

  /** One upload followed by a skipped part: one entry and one new file. */
  lemma CollectOne(temp: seq<string>, f: FilePart)
    ensures Collect(Store(map[], temp), [Some(f), None]) ==
      Store(map[f.field := Upload(f.filename, f.mediaType, |temp|, UploadErrOk, |f.content|)], temp + [f.content])
  {
    var ups := [Some(f), None];
    assert ups[..1] == [Some(f)] && ups[..1][..0] == [];
    assert Collect(Store(map[], temp), ups[..1]) == Record(Store(map[], temp), f);
  }
}
