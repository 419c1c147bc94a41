/** The generated post: extracting the reply text from the text-generation
    response, and parsing the `---`-separated reply into the post's fields. */
module Draft {
  import opened JsString

  /** The candidate places a text-generation response may hold its text in:
      `text`, `contents[0].parts[0].text` and `contents[0].text`; an absent
      field is the empty string. */
  datatype GenResponse = GenResponse(text: string, partText: string, contentText: string)

  datatype DraftError =
    | NoText                        // no candidate field holds text
    | TooFewSegments(count: nat)    // fewer than 10 non-empty segments

  /** generateText: the first candidate that is a non-empty string. */
  function GenerateText(resp: GenResponse): (r: Result<string, DraftError>)
    ensures r.Err? <==> resp.text == "" && resp.partText == "" && resp.contentText == ""
    ensures r.Err? ==> r.error == NoText
    ensures r.Ok? ==> r.value != [] && r.value in [resp.text, resp.partText, resp.contentText]
    ensures resp.text != "" ==> r == Ok(resp.text)
    ensures resp.text == "" && resp.partText != "" ==> r == Ok(resp.partText)
  {
    if resp.text != "" then Ok(resp.text)
    else if resp.partText != "" then Ok(resp.partText)
    else if resp.contentText != "" then Ok(resp.contentText)
    else Err(NoText)
  }

  /** The post's fields, in the order the reply gives them. */
  datatype Post = Post(imageWord: string, title: string, paragraphs: seq<string>, caption: string, hashtags: string)

  /** The separator between the reply's segments. */
  const Separator: string := "---"

  /** How many segments a reply needs. */
  const SegmentCount: nat := 10

  /** `.map(p => p.trim())`. */
  function TrimAll(ps: seq<string>): (r: seq<string>)
    ensures |r| == |ps| && forall i :: 0 <= i < |r| ==> r[i] == Trim(ps[i]) && Trimmed(r[i])
  {
    if ps == [] then [] else [Trim(ps[0])] + TrimAll(ps[1..])
  }

  /** `.filter(Boolean)`: the empty strings are dropped, the rest kept in order. */
  function NonEmpty(ps: seq<string>): (r: seq<string>)
    ensures |r| <= |ps|
    ensures forall i :: 0 <= i < |r| ==> r[i] != [] && r[i] in ps
    ensures forall i :: 0 <= i < |ps| && ps[i] != [] ==> ps[i] in r
    ensures |ps| == 1 ==> r == if ps[0] == [] then [] else ps
  {
    if ps == [] then []
    else if ps[0] == [] then NonEmpty(ps[1..])
    else [ps[0]] + NonEmpty(ps[1..])
  }

  /** The reply's segments: split on `---`, trimmed, empty ones dropped. */
  function Segments(fullText: string): (r: seq<string>)
    ensures AllClean(r)
  {
    NonEmpty(TrimAll(Split(fullText, Separator)))
  }

  /** The segments are exactly the trimmed pieces of the split that are not
      empty: each segment is a trimmed piece, and no non-empty trimmed piece
      is missing. */
  lemma SegmentsOfPieces(fullText: string)
    ensures var r := Segments(fullText);
      var pieces := Split(fullText, Separator);
      && (forall k :: 0 <= k < |r| ==> exists i :: 0 <= i < |pieces| && r[k] == Trim(pieces[i]))
      && (forall i :: 0 <= i < |pieces| && Trim(pieces[i]) != [] ==> Trim(pieces[i]) in r)
  {
  }

  /** Parse the reply: keyword, title, six paragraphs, caption, hashtags;
      segments past the tenth are ignored. */
  function ParseDraft(fullText: string): (r: Result<Post, DraftError>)
    ensures r.Err? <==> |Segments(fullText)| < SegmentCount
    ensures r.Err? ==> r.error == TooFewSegments(|Segments(fullText)|)
    ensures r.Ok? ==> WellFormed(r.value) && Fields(r.value) == Segments(fullText)[..SegmentCount]
  {
    var p := Segments(fullText);
    if |p| < SegmentCount then Err(TooFewSegments(|p|))
    else
      FieldsOfSegments(p);
      Ok(Post(p[0], p[1], p[2..8], p[8], p[9]))
  }

  lemma FieldsOfSegments(p: seq<string>)
    requires |p| >= 10 && AllClean(p)
    ensures Fields(Post(p[0], p[1], p[2..8], p[8], p[9])) == p[..10]
    ensures WellFormed(Post(p[0], p[1], p[2..8], p[8], p[9]))
  {
    var fs := Fields(Post(p[0], p[1], p[2..8], p[8], p[9]));
    assert fs == p[..10];
    forall i | 0 <= i < |fs| ensures fs[i] != [] && Trimmed(fs[i]) {
      assert fs[i] == p[i];
    }
  }

  /** The ten fields in reply order. */
  function Fields(d: Post): seq<string> {
    [d.imageWord, d.title] + d.paragraphs + [d.caption, d.hashtags]
  }

  /** `s` does not contain the separator. */
  predicate NoSeparator(s: string) {
    forall j :: 0 <= j < |s| ==> !MatchAt(s, Separator, j)
  }

  /** Every string is non-empty and trimmed. */
  predicate AllClean(fs: seq<string>) {
    forall i :: 0 <= i < |fs| ==> fs[i] != [] && Trimmed(fs[i])
  }

  /** Six paragraphs, every field non-empty and trimmed. */
  predicate WellFormed(d: Post) {
    |d.paragraphs| == 6 && AllClean(Fields(d))
  }

  /** The caption posted with the carousel: the caption, a blank line, the hashtags. */
  function PostCaption(d: Post): (c: string)
    ensures |c| == |d.caption| + 2 + |d.hashtags|
    ensures c[..|d.caption|] == d.caption && c[|d.caption| + 2..] == d.hashtags
    ensures c[|d.caption|..|d.caption| + 2] == "\n\n"
  {
    d.caption + "\n\n" + d.hashtags
  }

  /** A reply in the requested format: the fields, one per block, separated by
      lines holding `---`. */
  function Render(d: Post): string {
    Join(Fields(d), "\n---\n")
  }

  /** A well-formed post whose fields do not contain `---` is read back
      unchanged from a reply in the requested format. */
  lemma ParseRender(d: Post)
    requires WellFormed(d) && AllNoSeparator(Fields(d))
    ensures ParseDraft(Render(d)) == Ok(d)
  {
    var fs := Fields(d);
    SplitBlocks("", fs);
    assert "" + Render(d) == Render(d);
    NonEmptyKeeps(fs);
    assert Segments(Render(d)) == fs;
    assert fs[2..8] == d.paragraphs;
  }

  lemma {:induction false} NonEmptyKeeps(ps: seq<string>)
    requires forall i :: 0 <= i < |ps| ==> ps[i] != []
    ensures NonEmpty(ps) == ps
  {
    if ps != [] {
      NonEmptyKeeps(ps[1..]);
      assert [ps[0]] + ps[1..] == ps;
    }
  }

  /** `filter(Boolean)` works piece by piece: dropping the empty strings of a
      concatenation drops them from each part, keeping the order. */
  lemma {:induction false} NonEmptyAppend(a: seq<string>, b: seq<string>)
    ensures NonEmpty(a + b) == NonEmpty(a) + NonEmpty(b)
  {
    if a != [] {
      assert (a + b)[1..] == a[1..] + b;
      NonEmptyAppend(a[1..], b);
    } else {
      assert a + b == b;
    }
  }

  predicate AllNoSeparator(fs: seq<string>) {
    forall i :: 0 <= i < |fs| ==> NoSeparator(fs[i])
  }

  /** Splitting blocks joined by `\n---\n`, after a leading `pre`, and
      trimming the pieces gives the blocks back. */
  lemma {:induction false} SplitBlocks(pre: string, fs: seq<string>)
    requires pre == "" || pre == "\n"
    requires fs != [] && AllClean(fs) && AllNoSeparator(fs)
    ensures TrimAll(Split(pre + Join(fs, "\n---\n"), Separator)) == fs
    decreases |fs|
  {
    if |fs| == 1 {
      var f := fs[0];
      assert Join(fs, "\n---\n") == f;
      OneBlock(pre, f);
      assert [f] == fs;
    } else {
      TailClean(fs);
      SplitBlocks("\n", fs[1..]);
      NextBlock(pre, fs);
    }
  }

  lemma OneBlock(pre: string, f: string)
    requires pre == "" || pre == "\n"
    requires f != [] && Trimmed(f) && NoSeparator(f)
    ensures TrimAll(Split(pre + f, Separator)) == [f]
  {
    LastBlock(pre, f);
    PaddedLast(pre, f);
    TrimmedOne(pre + f, f);
  }

  lemma TrimmedOne(a: string, f: string)
    requires Trim(a) == f
    ensures TrimAll([a]) == [f]
  {
    assert [a][1..] == [];
  }

  /** The last block has no trailing line break; it trims back to the field. */
  lemma PaddedLast(pre: string, f: string)
    requires pre == "" || pre == "\n"
    requires f != [] && Trimmed(f)
    ensures Trim(pre + f) == f
  {
    assert pre + f + [] == pre + f;
    TrimPadded(pre, f, []);
  }

  lemma NextBlock(pre: string, fs: seq<string>)
    requires pre == "" || pre == "\n"
    requires |fs| >= 2 && fs[0] != [] && Trimmed(fs[0]) && NoSeparator(fs[0])
    requires TrimAll(Split("\n" + Join(fs[1..], "\n---\n"), Separator)) == fs[1..]
    ensures TrimAll(Split(pre + Join(fs, "\n---\n"), Separator)) == fs
  {
    var f := fs[0];
    var rest := Join(fs[1..], "\n---\n");
    var pieces := Split("\n" + rest, Separator);
    JoinHead(fs, "\n---\n");
    BlockStep(pre, f, rest);
    PaddedBlock(pre, f);
    TrimmedCons(pre + f + "\n", f, pieces, fs[1..]);
    ConsTail(fs);
  }

  /** A block as split off, with its line breaks, trims back to the field. */
  lemma PaddedBlock(pre: string, f: string)
    requires pre == "" || pre == "\n"
    requires f != [] && Trimmed(f)
    ensures Trim(pre + f + "\n") == f
  {
    TrimPadded(pre, f, "\n");
  }

  lemma TrimmedCons(a: string, f: string, ps: seq<string>, fs: seq<string>)
    requires Trim(a) == f && TrimAll(ps) == fs
    ensures TrimAll([a] + ps) == [f] + fs
  {
    assert ([a] + ps)[1..] == ps;
  }

  lemma ConsTail<T>(s: seq<T>)
    requires s != []
    ensures [s[0]] + s[1..] == s
  {
  }

  lemma JoinHead(fs: seq<string>, sep: string)
    requires |fs| >= 2
    ensures Join(fs, sep) == fs[0] + sep + Join(fs[1..], sep)
  {
  }

  lemma TailClean(fs: seq<string>)
    requires fs != [] && AllClean(fs) && AllNoSeparator(fs)
    ensures AllClean(fs[1..]) && AllNoSeparator(fs[1..])
  {
    forall i | 0 <= i < |fs[1..]| ensures fs[1..][i] == fs[i + 1] { }
  }

  /** The first block and its newline are cut off at the separator. */
  lemma BlockStep(pre: string, f: string, rest: string)
    requires pre == "" || pre == "\n"
    requires NoSeparator(f)
    ensures Split(pre + (f + "\n---\n" + rest), Separator) == [pre + f + "\n"] + Split("\n" + rest, Separator)
  {
    var a := pre + f + "\n";
    assert pre + (f + "\n---\n" + rest) == a + (Separator + ("\n" + rest));
    SeparableBlock(pre, f);
    SplitFromSkips(a, Separator + ("\n" + rest), Separator, []);
    assert [] + a == a;
    SplitAtSeparator(Separator, "\n" + rest, a);
  }

  /** The last block is one piece. */
  lemma LastBlock(pre: string, f: string)
    requires pre == "" || pre == "\n"
    requires NoSeparator(f)
    ensures Split(pre + f, Separator) == [pre + f]
  {
    var a := pre + f;
    forall j | 0 <= j < |a| ensures !MatchAt(a, Separator, j) {
      if j < |pre| {
        NoMatchAt(a, j, 0);
      } else if j + 3 <= |a| {
        var k := j - |pre|;
        assert a[j..j + 3] == f[k..k + 3];
        MatchWindow(a, j);
        MatchWindow(f, k);
      } else {
        ShortTail(a, j);
      }
    }
    SplitFromPlain(a, Separator, []);
    assert [] + a == a;
  }


  /** A block without `---`, after an optional newline and before a newline,
      is never cut by the split, whatever follows it. */
  lemma SeparableBlock(pre: string, f: string)
    requires pre == "" || pre == "\n"
    requires NoSeparator(f)
    ensures Separable(pre + f + "\n", Separator)
  {
    var a := pre + f + "\n";
    var t := a + Separator;
    var nl := |pre| + |f|;
    assert t[nl] == '\n';
    forall j | 0 <= j < |a| ensures !MatchAt(t, Separator, j) {
      if j < |pre| {
        assert t[j] == '\n';
        NoMatchAt(t, j, 0);
      } else if j + 3 <= nl {
        var k := j - |pre|;
        InnerWindow(pre, f, "\n" + Separator, k);
        assert pre + f + "\n" + Separator == pre + f + ("\n" + Separator);
        MatchWindow(t, j);
        MatchWindow(f, k);
      } else {
        NoMatchAt(t, j, nl - j);
      }
    }
  }

  /** A window lying inside the middle part of a concatenation is a window of that part. */
  lemma InnerWindow(pre: string, f: string, post: string, k: nat)
    requires k + 3 <= |f|
    ensures (pre + f + post)[|pre| + k..|pre| + k + 3] == f[k..k + 3]
  {
    var t := pre + f + post;
    forall p | |pre| + k <= p < |pre| + k + 3 ensures t[p] == f[p - |pre|] { }
  }

  /** The separator is found at `j` exactly when the three characters there spell it. */
  lemma MatchWindow(t: string, j: nat)
    requires j + 3 <= |t|
    ensures MatchAt(t, Separator, j) <==> t[j..j + 3] == Separator
  {
    assert t[j..][..3] == t[j..j + 3];
  }

  /** A character other than `-` in the window rules the separator out. */
  lemma NoMatchAt(t: string, j: nat, k: nat)
    requires k < 3 && j + k < |t| && t[j + k] != '-'
    ensures !MatchAt(t, Separator, j)
  {
    if j + 3 <= |t| {
      assert t[j..][k] == t[j + k];
      assert Separator[k] == '-';
    }
  }

  /** Fewer than three characters left: no room for the separator. */
  lemma ShortTail(t: string, j: nat)
    requires j + 3 > |t|
    ensures !MatchAt(t, Separator, j)
  {
  }
}
