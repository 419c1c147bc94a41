/** JavaScript string operations the generator relies on: `trim`, the `\s`
    character class, `split` and `join` on a literal separator, and the
    decimal rendering of a counter in a template literal. */
module JsString {

  /** Outcome of an operation that may throw: the thrown error becomes `Err`. */
  datatype Result<+T, +E> = Ok(value: T) | Err(error: E)

  /** A field of a JSON reply that may be absent. */
  datatype Option<+T> = None | Some(value: T)

  /** JavaScript white space and line terminators: the characters `trim`
      removes and the regular-expression class `\s` matches. */
  predicate IsSpace(c: char) {
    c == ' ' || c == '\t' || c == '\n' || c == '\r' || c == '\U{B}' || c == '\U{C}'
    || c == '\U{A0}' || c == '\U{1680}' || ('\U{2000}' <= c <= '\U{200A}')
    || c == '\U{2028}' || c == '\U{2029}' || c == '\U{202F}' || c == '\U{205F}'
    || c == '\U{3000}' || c == '\U{FEFF}'
  }

  /** No character of `s` is white space. */
  predicate NoSpace(s: string) {
    forall i :: 0 <= i < |s| ==> !IsSpace(s[i])
  }

  /** `s` neither begins nor ends with white space. */
  predicate Trimmed(s: string) {
    s == [] || (!IsSpace(s[0]) && !IsSpace(s[|s| - 1]))
  }

  function TrimStart(s: string): (r: string)
    ensures |r| <= |s| && r == s[|s| - |r|..]
    ensures r == [] || !IsSpace(r[0])
    ensures forall i :: 0 <= i < |s| - |r| ==> IsSpace(s[i])
  {
    if s != [] && IsSpace(s[0]) then TrimStart(s[1..]) else s
  }

  function TrimEnd(s: string): (r: string)
    ensures |r| <= |s| && r == s[..|r|]
    ensures r == [] || !IsSpace(r[|r| - 1])
    ensures forall i :: |r| <= i < |s| ==> IsSpace(s[i])
  {
    if s != [] && IsSpace(s[|s| - 1]) then TrimEnd(s[..|s| - 1]) else s
  }

  /** `String.prototype.trim`: white space removed from both ends, and only
      that (see TrimPadded); a trimmed string is left as it is. */
  function Trim(s: string): (r: string)
    ensures Trimmed(r) && |r| <= |s|
    ensures Trimmed(s) ==> r == s
  {
    TrimEnd(TrimStart(s))
  }

  /** Trimming a trimmed string padded with white space on either side gives it back. */
  lemma {:induction false} TrimPadded(pre: string, s: string, post: string)
    requires Trimmed(s) && s != []
    requires forall i :: 0 <= i < |pre| ==> IsSpace(pre[i])
    requires forall i :: 0 <= i < |post| ==> IsSpace(post[i])
    ensures Trim(pre + s + post) == s
  {
    assert pre + s + post == pre + (s + post);
    TrimStartPadded(pre, s + post);
    TrimEndPadded(s, post);
  }

  lemma {:induction false} TrimStartPadded(pre: string, s: string)
    requires s != [] && !IsSpace(s[0])
    requires forall i :: 0 <= i < |pre| ==> IsSpace(pre[i])
    ensures TrimStart(pre + s) == s
  {
    if pre != [] {
      assert (pre + s)[1..] == pre[1..] + s;
      TrimStartPadded(pre[1..], s);
    }
  }

  lemma {:induction false} TrimEndPadded(s: string, post: string)
    requires s != [] && !IsSpace(s[|s| - 1])
    requires forall i :: 0 <= i < |post| ==> IsSpace(post[i])
    ensures TrimEnd(s + post) == s
  {
    if post != [] {
      var p := post[..|post| - 1];
      assert (s + post)[..|s + post| - 1] == s + p;
      TrimEndPadded(s, p);
    }
  }

  // ---------------------------------------------------------------- split / join

  /** `sep` occurs in `s` at position `j`. */
  predicate MatchAt(s: string, sep: string, j: nat) {
    j <= |s| && sep <= s[j..]
  }

  /** The left-to-right scan of `s.split(sep)`: `cur` is the piece being collected. */
  function SplitFrom(s: string, sep: string, cur: string): (r: seq<string>)
    requires sep != []
    ensures |r| >= 1
    decreases |s|
  {
    if s == [] then [cur]
    else if sep <= s then [cur] + SplitFrom(s[|sep|..], sep, [])
    else SplitFrom(s[1..], sep, cur + [s[0]])
  }

  /** `s.split(sep)` for a non-empty literal separator. */
  function Split(s: string, sep: string): (r: seq<string>)
    requires sep != []
    ensures |r| >= 1
  {
    SplitFrom(s, sep, [])
  }

  /** `parts.join(sep)`. */
  function Join(parts: seq<string>, sep: string): string {
    if parts == [] then []
    else if |parts| == 1 then parts[0]
    else parts[0] + sep + Join(parts[1..], sep)
  }

  lemma {:induction false} JoinSplitFrom(s: string, sep: string, cur: string)
    requires sep != []
    ensures Join(SplitFrom(s, sep, cur), sep) == cur + s
    decreases |s|
  {
    if s == [] {
      assert cur + s == cur;
    } else if sep <= s {
      var tail := s[|sep|..];
      JoinSplitFrom(tail, sep, []);
      assert s == sep + tail;
      JoinSplitAtSeparator(sep, tail, cur);
    } else {
      JoinSplitFrom(s[1..], sep, cur + [s[0]]);
      JoinSplitPastChar(s, sep, cur);
    }
  }

  lemma JoinSplitAtSeparator(sep: string, tail: string, cur: string)
    requires sep != []
    requires Join(SplitFrom(tail, sep, []), sep) == tail
    ensures Join(SplitFrom(sep + tail, sep, cur), sep) == cur + (sep + tail)
  {
    SplitAtSeparator(sep, tail, cur);
    JoinCons(cur, SplitFrom(tail, sep, []), sep);
  }

  /** A separator at the front closes the current piece. */
  lemma SplitAtSeparator(sep: string, tail: string, cur: string)
    requires sep != []
    ensures SplitFrom(sep + tail, sep, cur) == [cur] + SplitFrom(tail, sep, [])
  {
    var s := sep + tail;
    assert sep <= s;
    assert s[|sep|..] == tail;
  }

  lemma JoinSplitPastChar(s: string, sep: string, cur: string)
    requires sep != [] && s != [] && !(sep <= s)
    requires Join(SplitFrom(s[1..], sep, cur + [s[0]]), sep) == cur + [s[0]] + s[1..]
    ensures Join(SplitFrom(s, sep, cur), sep) == cur + s
  {
    assert SplitFrom(s, sep, cur) == SplitFrom(s[1..], sep, cur + [s[0]]);
    assert cur + [s[0]] + s[1..] == cur + s;
  }

  lemma JoinCons(p: string, rest: seq<string>, sep: string)
    requires rest != []
    ensures Join([p] + rest, sep) == p + sep + Join(rest, sep)
  {
    assert ([p] + rest)[1..] == rest;
  }

  /** Joining the pieces of a split with the same separator gives back the string. */
  lemma JoinSplit(s: string, sep: string)
    requires sep != []
    ensures Join(Split(s, sep), sep) == s
  {
    JoinSplitFrom(s, sep, []);
  }

  /** `sep` cannot be found in `a` starting at any position of `a`, even when
      `sep` itself follows `a`: a piece the split gives back unchanged. */
  predicate Separable(a: string, sep: string) {
    forall j :: 0 <= j < |a| ==> !MatchAt(a + sep, sep, j)
  }

  lemma {:induction false} SplitFromSkips(a: string, b: string, sep: string, cur: string)
    requires sep != [] && Separable(a, sep)
    requires b == [] || sep <= b
    ensures SplitFrom(a + b, sep, cur) == SplitFrom(b, sep, cur + a)
    decreases |a|
  {
    if a == [] {
      assert a + b == b && cur + a == cur;
    } else {
      assert !MatchAt(a + sep, sep, 0);
      PrefixBeforeSeparator(a, b, sep);
      assert (a + b)[1..] == a[1..] + b;
      forall j | 0 <= j < |a[1..]| ensures !MatchAt(a[1..] + sep, sep, j) {
        assert !MatchAt(a + sep, sep, j + 1);
        assert (a + sep)[j + 1..] == (a[1..] + sep)[j..];
      }
      SplitFromSkips(a[1..], b, sep, cur + [a[0]]);
      assert cur + [a[0]] + a[1..] == cur + a;
    }
  }

  /** A separator found at the start of `a + b`, where `b` is empty or starts
      with the separator, is also found at the start of `a + sep`. */
  lemma PrefixBeforeSeparator(a: string, b: string, sep: string)
    requires b == [] || sep <= b
    ensures sep <= a + b ==> sep <= a + sep
  {
    if sep <= a + b {
      if |a| >= |sep| {
        assert (a + b)[..|sep|] == (a + sep)[..|sep|];
      } else {
        assert |a + b| >= |sep|;
        assert sep[..|a|] == a;
        assert sep[|a|..] == (a + b)[|a|..|sep|] == sep[..|sep| - |a|];
        assert sep == a + sep[|a|..];
      }
    }
  }

  /** A string in which the separator never occurs is one piece. */
  lemma {:induction false} SplitFromPlain(a: string, sep: string, cur: string)
    requires sep != []
    requires forall j :: 0 <= j < |a| ==> !MatchAt(a, sep, j)
    ensures SplitFrom(a, sep, cur) == [cur + a]
    decreases |a|
  {
    if a == [] {
      assert cur + a == cur;
    } else {
      assert !MatchAt(a, sep, 0);
      forall j | 0 <= j < |a[1..]| ensures !MatchAt(a[1..], sep, j) {
        assert !MatchAt(a, sep, j + 1);
        assert a[j + 1..] == a[1..][j..];
      }
      SplitFromPlain(a[1..], sep, cur + [a[0]]);
      assert cur + [a[0]] + a[1..] == cur + a;
    }
  }

  /** Splitting a join gives back the parts when every part is separable. */
  lemma {:induction false} SplitJoin(parts: seq<string>, sep: string)
    requires sep != [] && parts != []
    requires forall i :: 0 <= i < |parts| ==> Separable(parts[i], sep)
    ensures Split(Join(parts, sep), sep) == parts
  {
    SplitJoinFrom(parts, sep);
  }

  lemma {:induction false} SplitJoinFrom(parts: seq<string>, sep: string)
    requires sep != [] && parts != []
    requires forall i :: 0 <= i < |parts| ==> Separable(parts[i], sep)
    ensures SplitFrom(Join(parts, sep), sep, []) == parts
    decreases |parts|
  {
    if |parts| == 1 {
      SplitFromSkips(parts[0], [], sep, []);
      assert parts[0] + [] == parts[0] && [] + parts[0] == parts[0];
    } else {
      var rest := Join(parts[1..], sep);
      assert Join(parts, sep) == parts[0] + (sep + rest);
      SplitFromSkips(parts[0], sep + rest, sep, []);
      assert (sep + rest)[|sep|..] == rest;
      SplitJoinFrom(parts[1..], sep);
      assert [] + parts[0] == parts[0];
      assert [parts[0]] + parts[1..] == parts;
    }
  }

  /** A part not containing a one-character separator is separable by it. */
  lemma SeparableByChar(a: string, c: char)
    requires forall i :: 0 <= i < |a| ==> a[i] != c
    ensures Separable(a, [c])
  {
    forall j | 0 <= j < |a| ensures !MatchAt(a + [c], [c], j) {
      assert (a + [c])[j] == a[j];
    }
  }

  // ---------------------------------------------------------------- decimal

  function DigitChar(d: nat): char
    requires d < 10
  {
    ['0', '1', '2', '3', '4', '5', '6', '7', '8', '9'][d]
  }

  /** `${n}` for a non-negative integer: its decimal digits, most significant first. */
  function Decimal(n: nat): (r: string)
    ensures r != []
    ensures forall i :: 0 <= i < |r| ==> '0' <= r[i] <= '9'
  {
    if n < 10 then [DigitChar(n)] else Decimal(n / 10) + [DigitChar(n % 10)]
  }

  /** The number a string of decimal digits denotes. */
  function DecimalValue(s: string): nat
    requires forall i :: 0 <= i < |s| ==> '0' <= s[i] <= '9'
  {
    if s == [] then 0 else 10 * DecimalValue(s[..|s| - 1]) + (s[|s| - 1] as int - '0' as int)
  }

  /** Reading the rendered digits back gives the number: distinct counters render distinctly. */
  lemma {:induction false} DecimalRoundTrip(n: nat)
    ensures DecimalValue(Decimal(n)) == n
  {
    var r := Decimal(n);
    if n >= 10 {
      DecimalRoundTrip(n / 10);
      assert r[..|r| - 1] == Decimal(n / 10);
    }
  }
}
