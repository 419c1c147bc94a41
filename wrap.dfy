/** The greedy line wrapper `wrapTextLines` of the image composer.

    The canvas context's `measureText(...).width` is abstracted as a
    `Measure`: the width of a string in the face currently selected, given
    its pixel size.  Everything else the wrapper does is modelled exactly:
    the text is split on single spaces, a word is appended to the line
    (followed by one space) unless the line with it would be wider than
    `maxWidth` and the line is not empty, and pushed lines are trimmed. */
module LineWrap {
  import opened JsString

  /** Width of a string drawn at the given pixel size in one font face. */
  type Measure = (int, string) -> real

  /** Widths never shrink when text is added before or after: true of glyph
      advances, and the only assumption some lemmas below make about widths. */
  ghost predicate Monotone(m: Measure, size: int) {
    forall a: string, b: string :: m(size, a) <= m(size, a + b) && m(size, b) <= m(size, a + b)
  }

  /** The words of the text: `text.split(' ')`. */
  function Words(text: string): (ws: seq<string>)
    ensures |ws| >= 1
  {
    Split(text, " ")
  }

  /** The value `line` holds after the words `ws` were appended to it: each
      word followed by one space. */
  function Spaced(ws: seq<string>): string {
    if ws == [] then [] else ws[0] + " " + Spaced(ws[1..])
  }

  /** The words of consecutive groups, in order. */
  function Flatten(gs: seq<seq<string>>): seq<string> {
    if gs == [] then [] else gs[0] + Flatten(gs[1..])
  }

  /** The wrapping loop over the words still to place: `cur` are the words on
      the line being built, `done` the words of the lines already pushed. */
  function GroupFrom(m: Measure, size: int, maxWidth: real, words: seq<string>,
                     cur: seq<string>, done: seq<seq<string>>): seq<seq<string>>
    decreases |words|
  {
    if words == [] then (if cur == [] then done else done + [cur])
    else if m(size, Spaced(cur + [words[0]])) > maxWidth && cur != [] then
      GroupFrom(m, size, maxWidth, words[1..], [words[0]], done + [cur])
    else
      GroupFrom(m, size, maxWidth, words[1..], cur + [words[0]], done)
  }

  /** The words of each line the wrapper produces. */
  function Groups(m: Measure, size: int, maxWidth: real, words: seq<string>): seq<seq<string>> {
    GroupFrom(m, size, maxWidth, words, [], [])
  }

  /** The line pushed for the words `g`: the `line` value, trimmed. */
  function LineOf(g: seq<string>): string {
    Trim(Spaced(g))
  }

  /** The pushed lines, one per group. */
  function Lines(gs: seq<seq<string>>): (ls: seq<string>)
    ensures |ls| == |gs|
  {
    seq(|gs|, i requires 0 <= i < |gs| => LineOf(gs[i]))
  }

  /** `wrapTextLines(ctx, text, maxWidth)` with the context's font at `size`. */
  function Wrap(m: Measure, size: int, text: string, maxWidth: real): seq<string> {
    Lines(Groups(m, size, maxWidth, Words(text)))
  }

  // ------------------------------------------------------------ the wrapper

  /** wrapTextLines: the loop over the words, building `line` and pushing
      each finished line into `lines`. */
  method WrapTextLines(m: Measure, size: int, text: string, maxWidth: real)
    returns (lines: seq<string>)
    ensures lines == Wrap(m, size, text, maxWidth)
    ensures |lines| >= 1
  {
    var words := Split(text, " ");
    var line := "";
    ghost var cur: seq<string> := [];
    ghost var done: seq<seq<string>> := [];
    lines := [];
    for i := 0 to |words|
      invariant line == Spaced(cur) && (line == "" <==> cur == [])
      invariant lines == Lines(done)
      invariant GroupFrom(m, size, maxWidth, words[i..], cur, done) == Groups(m, size, maxWidth, words)
    {
      var w := words[i];
      var test := line + w + " ";
      SpacedAppend(cur, [w]);
      assert Spaced([w]) == w + " ";
      assert test == Spaced(cur + [w]);
      assert words[i..][0] == w && words[i..][1..] == words[i + 1..];
      if m(size, test) > maxWidth && line != "" {
        assert GroupFrom(m, size, maxWidth, words[i..], cur, done)
            == GroupFrom(m, size, maxWidth, words[i + 1..], [w], done + [cur]);
        LinesAppend(done, cur);
        lines := lines + [Trim(line)];
        done := done + [cur];
        line := w + " ";
        cur := [w];
      } else {
        assert GroupFrom(m, size, maxWidth, words[i..], cur, done)
            == GroupFrom(m, size, maxWidth, words[i + 1..], cur + [w], done);
        line := test;
        cur := cur + [w];
      }
    }
    assert GroupFrom(m, size, maxWidth, words[|words|..], cur, done)
        == if cur == [] then done else done + [cur];
    if line != "" {
      LinesAppend(done, cur);
      lines := lines + [Trim(line)];
      done := done + [cur];
    }
    WrapNonEmpty(m, size, text, maxWidth);
  }

  // ------------------------------------------------------------ independent description

  /** `gs` cuts `words` into non-empty consecutive lines. */
  ghost predicate Partition(gs: seq<seq<string>>, words: seq<string>) {
    (forall i :: 0 <= i < |gs| ==> gs[i] != []) && Flatten(gs) == words
  }

  /** Each word after the first of line `g` fitted, with its trailing space,
      when it was added. */
  ghost predicate FitsWhenAdded(m: Measure, size: int, maxWidth: real, g: seq<string>) {
    forall k :: 2 <= k <= |g| ==> m(size, Spaced(g[..k])) <= maxWidth
  }

  /** Line `g` was closed because the next word did not fit after it. */
  ghost predicate ClosedWhenFull(m: Measure, size: int, maxWidth: real, g: seq<string>, next: string) {
    m(size, Spaced(g + [next])) > maxWidth
  }

  /** Line `i - 1` of `gs` was closed because the first word of line `i` did not fit. */
  ghost predicate ClosedBefore(m: Measure, size: int, maxWidth: real, gs: seq<seq<string>>, i: nat)
    requires 1 <= i < |gs|
  {
    gs[i] != [] && ClosedWhenFull(m, size, maxWidth, gs[i - 1], gs[i][0])
  }

  /** Greedy filling: every line holds what fitted, and each line is closed
      only when the first word of the next one does not fit on it. */
  ghost predicate Greedy(m: Measure, size: int, maxWidth: real, gs: seq<seq<string>>) {
    && (forall i :: 0 <= i < |gs| ==> FitsWhenAdded(m, size, maxWidth, gs[i]))
    && (forall i :: 1 <= i < |gs| ==> ClosedBefore(m, size, maxWidth, gs, i))
  }

  // ------------------------------------------------------------ sequence facts

  lemma LinesAppend(gs: seq<seq<string>>, g: seq<string>)
    ensures Lines(gs + [g]) == Lines(gs) + [LineOf(g)]
  {
    var a, b := Lines(gs + [g]), Lines(gs) + [LineOf(g)];
    forall i | 0 <= i < |a| ensures a[i] == b[i] {
      if i < |gs| {
        assert (gs + [g])[i] == gs[i];
      }
    }
  }

  lemma {:induction false} SpacedAppend(a: seq<string>, b: seq<string>)
    ensures Spaced(a + b) == Spaced(a) + Spaced(b)
  {
    if a == [] {
      assert a + b == b;
    } else {
      assert (a + b)[1..] == a[1..] + b;
      SpacedAppend(a[1..], b);
    }
  }

  lemma {:induction false} FlattenAppend(a: seq<seq<string>>, b: seq<seq<string>>)
    ensures Flatten(a + b) == Flatten(a) + Flatten(b)
  {
    if a == [] {
      assert a + b == b;
    } else {
      assert (a + b)[1..] == a[1..] + b;
      FlattenAppend(a[1..], b);
    }
  }

  lemma {:induction false} FlattenLength(gs: seq<seq<string>>)
    requires forall i :: 0 <= i < |gs| ==> gs[i] != []
    ensures |Flatten(gs)| >= |gs|
  {
    if gs != [] {
      FlattenLength(gs[1..]);
    }
  }

  // ------------------------------------------------------------ the loop is greedy

  /** Closing the line `cur` because `w` does not fit keeps the lines greedy. */
  lemma GreedyClose(m: Measure, size: int, maxWidth: real, done: seq<seq<string>>, cur: seq<string>, w: string)
    requires cur != [] && Greedy(m, size, maxWidth, done + [cur])
    requires m(size, Spaced(cur + [w])) > maxWidth
    ensures Greedy(m, size, maxWidth, done + [cur] + [[w]])
  {
    var old' := done + [cur];
    var gs := old' + [[w]];
    forall i | 0 <= i < |gs| ensures FitsWhenAdded(m, size, maxWidth, gs[i]) {
      if i < |old'| {
        assert gs[i] == old'[i];
      }
    }
    forall i | 1 <= i < |gs| ensures ClosedBefore(m, size, maxWidth, gs, i) {
      if i < |old'| {
        assert ClosedBefore(m, size, maxWidth, old', i);
        assert gs[i] == old'[i] && gs[i - 1] == old'[i - 1];
      } else {
        assert gs[i - 1] == cur && gs[i] == [w];
      }
    }
  }

  /** Appending a word that fits to the line `cur` keeps the lines greedy. */
  lemma GreedyExtend(m: Measure, size: int, maxWidth: real, done: seq<seq<string>>, cur: seq<string>, w: string)
    requires cur != [] && Greedy(m, size, maxWidth, done + [cur])
    requires m(size, Spaced(cur + [w])) <= maxWidth
    ensures Greedy(m, size, maxWidth, done + [cur + [w]])
  {
    var old' := done + [cur];
    var gs := done + [cur + [w]];
    var g := cur + [w];
    assert FitsWhenAdded(m, size, maxWidth, old'[|done|]);
    assert FitsWhenAdded(m, size, maxWidth, g) by {
      forall k | 2 <= k <= |g| ensures m(size, Spaced(g[..k])) <= maxWidth {
        if k <= |cur| {
          assert g[..k] == cur[..k];
        } else {
          assert g[..k] == g;
        }
      }
    }
    forall i | 0 <= i < |gs| ensures FitsWhenAdded(m, size, maxWidth, gs[i]) {
      if i < |done| {
        assert gs[i] == old'[i];
      }
    }
    forall i | 1 <= i < |gs| ensures ClosedBefore(m, size, maxWidth, gs, i) {
      assert ClosedBefore(m, size, maxWidth, old', i);
      assert gs[i - 1] == old'[i - 1];
      if i < |done| {
        assert gs[i] == old'[i];
      } else {
        assert gs[i][0] == cur[0] == old'[i][0];
      }
    }
  }

  /** The loop only ever closes full lines and fills each line greedily. */
  lemma {:induction false} GroupFromSound(m: Measure, size: int, maxWidth: real, words: seq<string>,
                                          cur: seq<string>, done: seq<seq<string>>)
    requires forall i :: 0 <= i < |done| ==> done[i] != []
    requires cur == [] ==> done == []
    requires cur != [] ==> Greedy(m, size, maxWidth, done + [cur])
    ensures var gs := GroupFrom(m, size, maxWidth, words, cur, done);
      && Partition(gs, Flatten(done) + cur + words)
      && Greedy(m, size, maxWidth, gs)
    decreases |words|
  {
    if words == [] {
      if cur == [] {
        assert Flatten(done) + cur + words == [];
      } else {
        FlattenAppend(done, [cur]);
        assert Flatten([cur]) == cur + Flatten([]);
        assert Flatten(done) + cur + words == Flatten(done + [cur]);
      }
    } else {
      var w, rest := words[0], words[1..];
      if m(size, Spaced(cur + [w])) > maxWidth && cur != [] {
        GreedyClose(m, size, maxWidth, done, cur, w);
        assert GroupFrom(m, size, maxWidth, words, cur, done)
            == GroupFrom(m, size, maxWidth, rest, [w], done + [cur]);
        assert done + [cur] + [[w]] == (done + [cur]) + [[w]];
        GroupFromSound(m, size, maxWidth, rest, [w], done + [cur]);
        FlattenAppend(done, [cur]);
        assert Flatten([cur]) == cur + Flatten([]);
        assert Flatten(done + [cur]) + [w] + rest == Flatten(done) + cur + words;
      } else {
        assert GroupFrom(m, size, maxWidth, words, cur, done)
            == GroupFrom(m, size, maxWidth, rest, cur + [w], done);
        if cur != [] {
          GreedyExtend(m, size, maxWidth, done, cur, w);
        } else {
          assert cur + [w] == [w];
          assert Greedy(m, size, maxWidth, [] + [[w]]);
        }
        GroupFromSound(m, size, maxWidth, rest, cur + [w], done);
        assert Flatten(done) + (cur + [w]) + rest == Flatten(done) + cur + words;
      }
    }
  }

  /** The wrapper's lines cut the words into a greedy partition. */
  lemma GroupsSound(m: Measure, size: int, maxWidth: real, words: seq<string>)
    ensures Partition(Groups(m, size, maxWidth, words), words)
    ensures Greedy(m, size, maxWidth, Groups(m, size, maxWidth, words))
  {
    GroupFromSound(m, size, maxWidth, words, [], []);
    assert Flatten([]) + [] + words == words;
  }

  /** wrapTextLines always returns at least one line, even for empty text. */
  lemma WrapNonEmpty(m: Measure, size: int, text: string, maxWidth: real)
    ensures |Wrap(m, size, text, maxWidth)| >= 1
  {
    var gs := Groups(m, size, maxWidth, Words(text));
    GroupsSound(m, size, maxWidth, Words(text));
    assert Flatten(gs) == Words(text);
  }

  // ------------------------------------------------------------ the greedy partition is unique

  lemma {:induction false} GroupFromComplete(m: Measure, size: int, maxWidth: real, words: seq<string>,
                                             cur: seq<string>, done: seq<seq<string>>, gs: seq<seq<string>>)
    requires cur != [] && gs != [] && |gs[0]| >= |cur| && gs[0][..|cur|] == cur
    requires Partition(gs, cur + words) && Greedy(m, size, maxWidth, gs)
    ensures GroupFrom(m, size, maxWidth, words, cur, done) == done + gs
    decreases |words|
  {
    var g := gs[0];
    assert Flatten(gs) == g + Flatten(gs[1..]);
    assert (cur + words)[..|g|] == g;
    FlattenLength(gs[1..]);
    if words == [] {
      assert |g| == |cur| && g == cur;
      assert gs == [g];
    } else {
      var w, rest := words[0], words[1..];
      if |g| == |cur| {
        assert g == cur;
        assert Flatten(gs[1..]) == words;
        assert gs[1..] != [];
        var h := gs[1];
        assert h == Flatten(gs[1..])[..|h|];
        assert h[0] == w;
        assert ClosedBefore(m, size, maxWidth, gs, 1);
        assert h[..1] == [w];
        assert [w] + rest == words;
        GreedyTail(m, size, maxWidth, gs);
        GroupFromComplete(m, size, maxWidth, rest, [w], done + [cur], gs[1..]);
        assert done + [cur] + gs[1..] == done + gs;
      } else {
        assert g[|cur|] == w;
        assert g[..|cur| + 1] == cur + [w];
        assert FitsWhenAdded(m, size, maxWidth, gs[0]);
        assert m(size, Spaced(cur + [w])) <= maxWidth;
        assert cur + [w] + rest == cur + words;
        GroupFromComplete(m, size, maxWidth, rest, cur + [w], done, gs);
      }
    }
  }

  lemma GreedyTail(m: Measure, size: int, maxWidth: real, gs: seq<seq<string>>)
    requires gs != [] && Greedy(m, size, maxWidth, gs)
    ensures Greedy(m, size, maxWidth, gs[1..])
  {
    forall i | 1 <= i < |gs[1..]|
      ensures ClosedBefore(m, size, maxWidth, gs[1..], i)
    {
      assert ClosedBefore(m, size, maxWidth, gs, i + 1);
      assert gs[1..][i] == gs[i + 1] && gs[1..][i - 1] == gs[i];
    }
  }

  /** Any greedy partition of the words is the one the wrapper builds: the
      greedy description determines the lines completely. */
  lemma GreedyUnique(m: Measure, size: int, maxWidth: real, words: seq<string>, gs: seq<seq<string>>)
    requires Partition(gs, words) && Greedy(m, size, maxWidth, gs)
    ensures gs == Groups(m, size, maxWidth, words)
  {
    FlattenLength(gs);
    if words != [] {
      assert gs != [];
      assert Flatten(gs) == gs[0] + Flatten(gs[1..]);
      assert gs[0][0] == words[0];
      assert gs[0][..1] == [words[0]];
      assert [words[0]] + words[1..] == words;
      assert [] + [words[0]] == [words[0]];
      GroupFromComplete(m, size, maxWidth, words[1..], [words[0]], [], gs);
      assert [] + gs == gs;
    } else {
      assert gs == [];
    }
  }

  // ------------------------------------------------------------ over-wide words

  lemma WideWordFits(m: Measure, size: int, maxWidth: real, g: seq<string>, k: nat)
    requires Monotone(m, size) && FitsWhenAdded(m, size, maxWidth, g) && k < |g|
    ensures |g| >= 2 ==> m(size, g[k] + " ") <= maxWidth
  {
    if |g| >= 2 {
      if k == 0 {
        SpacedAppend([g[0]], [g[1]]);
        assert g[..2] == [g[0]] + [g[1]];
        assert Spaced([g[0]]) == g[0] + " ";
        assert m(size, Spaced([g[0]])) <= m(size, Spaced([g[0]]) + Spaced([g[1]]));
      } else {
        SpacedAppend(g[..k], [g[k]]);
        assert g[..k + 1] == g[..k] + [g[k]];
        assert Spaced([g[k]]) == g[k] + " ";
        assert m(size, Spaced([g[k]])) <= m(size, Spaced(g[..k]) + Spaced([g[k]]));
      }
    }
  }

  /** A word wider than `maxWidth` (with its trailing space) sits alone on its
      line: there is no hyphenation and no word joins it. */
  lemma WideWordAlone(m: Measure, size: int, maxWidth: real, words: seq<string>, i: nat, k: nat)
    requires Monotone(m, size)
    requires i < |Groups(m, size, maxWidth, words)| && k < |Groups(m, size, maxWidth, words)[i]|
    requires m(size, Groups(m, size, maxWidth, words)[i][k] + " ") > maxWidth
    ensures Groups(m, size, maxWidth, words)[i] == [Groups(m, size, maxWidth, words)[i][k]]
  {
    var gs := Groups(m, size, maxWidth, words);
    GroupsSound(m, size, maxWidth, words);
    WideWordFits(m, size, maxWidth, gs[i], k);
  }

  // ------------------------------------------------------------ content is preserved

  /** Text made of non-empty words without white space, separated by single spaces. */
  ghost predicate CleanWords(words: seq<string>) {
    forall i :: 0 <= i < |words| ==> words[i] != [] && NoSpace(words[i])
  }


  lemma {:induction false} SpacedIsJoin(g: seq<string>)
    requires g != []
    ensures Spaced(g) == Join(g, " ") + " "
  {
    if |g| == 1 {
      assert Spaced(g[1..]) == [];
    } else {
      SpacedIsJoin(g[1..]);
    }
  }

  /** A line of clean words, trimmed, is its words joined by single spaces. */
  lemma SpacedJoin(g: seq<string>)
    requires g != [] && CleanWords(g)
    ensures Trim(Spaced(g)) == Join(g, " ")
  {
    SpacedIsJoin(g);
    var j := Join(g, " ");
    JoinStartsWithFirstWord(g);
    JoinEndsWithLastWord(g);
    assert g[0] != [] && !IsSpace(g[0][0]);
    var last := g[|g| - 1];
    assert last != [] && !IsSpace(last[|last| - 1]);
    TrimPadded([], j, " ");
    assert [] + j + " " == j + " ";
  }

  lemma JoinStartsWithFirstWord(g: seq<string>)
    requires g != [] && g[0] != []
    ensures var j := Join(g, " "); j != [] && j[0] == g[0][0]
  {
  }

  lemma {:induction false} JoinEndsWithLastWord(g: seq<string>)
    requires g != [] && g[|g| - 1] != []
    ensures var j := Join(g, " "); j != [] && j[|j| - 1] == g[|g| - 1][|g[|g| - 1]| - 1]
  {
    if |g| > 1 {
      JoinEndsWithLastWord(g[1..]);
    }
  }

  /** The lines of clean words are those words joined with single spaces. */
  function JoinedGroups(gs: seq<seq<string>>): (ls: seq<string>)
    ensures |ls| == |gs|
  {
    seq(|gs|, i requires 0 <= i < |gs| => Join(gs[i], " "))
  }

  lemma {:induction false} JoinAppend(a: seq<string>, b: seq<string>, sep: string)
    requires a != [] && b != []
    ensures Join(a + b, sep) == Join(a, sep) + sep + Join(b, sep)
  {
    if |a| == 1 {
      assert (a + b)[1..] == b;
    } else {
      assert (a + b)[1..] == a[1..] + b;
      JoinAppend(a[1..], b, sep);
    }
  }

  lemma {:induction false} JoinFlatten(gs: seq<seq<string>>)
    requires forall i :: 0 <= i < |gs| ==> gs[i] != []
    ensures Join(Flatten(gs), " ") == Join(JoinedGroups(gs), " ")
  {
    if |gs| == 1 {
      assert gs[1..] == [];
      assert Flatten(gs) == gs[0] + [] == gs[0];
      assert |JoinedGroups(gs)| == 1 && JoinedGroups(gs)[0] == Join(gs[0], " ");
    } else if |gs| > 1 {
      JoinFlatten(gs[1..]);
      assert JoinedGroups(gs)[1..] == JoinedGroups(gs[1..]);
      FlattenLength(gs[1..]);
      JoinAppend(gs[0], Flatten(gs[1..]), " ");
    }
  }

  lemma CleanPartition(gs: seq<seq<string>>, words: seq<string>, i: nat)
    requires Partition(gs, words) && CleanWords(words) && i < |gs|
    ensures gs[i] != [] && CleanWords(gs[i])
    decreases i
  {
    assert words == gs[0] + Flatten(gs[1..]);
    if i == 0 {
      forall k | 0 <= k < |gs[0]| ensures gs[0][k] != [] && NoSpace(gs[0][k]) {
        assert gs[0][k] == words[k];
      }
    } else {
      var rest := Flatten(gs[1..]);
      assert CleanWords(rest) by {
        forall k | 0 <= k < |rest| ensures rest[k] != [] && NoSpace(rest[k]) {
          assert rest[k] == words[|gs[0]| + k];
        }
      }
      assert Partition(gs[1..], rest) by {
        forall j | 0 <= j < |gs[1..]| ensures gs[1..][j] != [] {
          assert gs[1..][j] == gs[j + 1];
        }
      }
      CleanPartition(gs[1..], rest, i - 1);
    }
  }

  /** For clean words, every line is its words joined by single spaces. */
  lemma LinesOfClean(gs: seq<seq<string>>, words: seq<string>)
    requires Partition(gs, words) && CleanWords(words)
    ensures Lines(gs) == JoinedGroups(gs)
  {
    forall i | 0 <= i < |gs| ensures Lines(gs)[i] == JoinedGroups(gs)[i] {
      CleanPartition(gs, words, i);
      SpacedJoin(gs[i]);
    }
  }

  /** wrapTextLines preserves content: joining its lines with single spaces
      gives back text made of non-empty words separated by single spaces. */
  lemma WrapJoin(m: Measure, size: int, text: string, maxWidth: real)
    requires CleanWords(Words(text))
    ensures Join(Wrap(m, size, text, maxWidth), " ") == text
  {
    var words := Words(text);
    var gs := Groups(m, size, maxWidth, words);
    GroupsSound(m, size, maxWidth, words);
    LinesOfClean(gs, words);
    JoinFlatten(gs);
    JoinSplit(text, " ");
  }

  /** Wrapping is idempotent: each line of clean text, wrapped again at the
      same size, comes back as that single line. */
  lemma WrapLineStable(m: Measure, size: int, text: string, maxWidth: real, i: nat)
    requires CleanWords(Words(text))
    requires i < |Wrap(m, size, text, maxWidth)|
    ensures Wrap(m, size, Wrap(m, size, text, maxWidth)[i], maxWidth) == [Wrap(m, size, text, maxWidth)[i]]
  {
    var words := Words(text);
    var gs := Groups(m, size, maxWidth, words);
    GroupsSound(m, size, maxWidth, words);
    LinesOfClean(gs, words);
    CleanPartition(gs, words, i);
    var g := gs[i];
    var line := Join(g, " ");
    assert Wrap(m, size, text, maxWidth)[i] == line;
    forall k | 0 <= k < |g| ensures Separable(g[k], " ") {
      SeparableByChar(g[k], ' ');
    }
    SplitJoin(g, " ");
    assert Words(line) == g;
    assert Partition([g], g) by {
      assert Flatten([g]) == g + Flatten([]);
    }
    assert Greedy(m, size, maxWidth, [g]) by {
      assert FitsWhenAdded(m, size, maxWidth, gs[i]);
    }
    GreedyUnique(m, size, maxWidth, g, [g]);
    SpacedJoin(g);
    assert Lines([g]) == [line];
  }
}
