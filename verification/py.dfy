/** The parts of Python's built-in string and list semantics the back end leans on:
    character classes, `str.split()`, `str.splitlines()`, `str.strip()`,
    `str.join`, `str.lower()`, `str.replace`, `str.find`, `os.path.splitext`,
    list slicing and list indexing (negative indices included). */
module Py {
  import opened Wrappers

  // ---------------------------------------------------------------------------
  // Character classes
  // ---------------------------------------------------------------------------

  /** `str.isspace()`: the characters `str.split()`, `str.strip()` and the regular
      expression class `\s` treat as whitespace. */
  predicate IsSpace(c: char) {
    || c == ' '
    || ('\t' <= c <= '\r')
    || ('\U{1c}' <= c <= '\U{1f}')
    || c == '\U{85}' || c == '\U{a0}' || c == '\U{1680}'
    || ('\U{2000}' <= c <= '\U{200a}')
    || c == '\U{2028}' || c == '\U{2029}' || c == '\U{202f}' || c == '\U{205f}' || c == '\U{3000}'
  }

  /** The characters at which `str.splitlines()` ends a line (a subset of `IsSpace`). */
  predicate IsLineBreak(c: char) {
    || ('\n' <= c <= '\r')
    || ('\U{1c}' <= c <= '\U{1e}')
    || c == '\U{85}' || c == '\U{2028}' || c == '\U{2029}'
  }

  predicate NotSpace(c: char) {
    !IsSpace(c)
  }

  predicate NotLineBreak(c: char) {
    !IsLineBreak(c)
  }

  /** `str.isalnum()`, restricted to ASCII letters and digits. */
  predicate IsAlnum(c: char) {
    ('a' <= c <= 'z') || ('A' <= c <= 'Z') || ('0' <= c <= '9')
  }

  /** The regular-expression class `\w`. */
  predicate IsWordChar(c: char) {
    IsAlnum(c) || c == '_'
  }

  predicate IsUpper(c: char) {
    'A' <= c <= 'Z'
  }

  /** `str.lower()` on one character (ASCII case mapping). */
  function Lower(c: char): (d: char)
    ensures !IsUpper(d)
    ensures IsWordChar(d) <==> IsWordChar(c)
    ensures IsSpace(d) <==> IsSpace(c)
    ensures !IsUpper(c) ==> d == c
  {
    if IsUpper(c) then (c as int + 32) as char else c
  }

  function LowerStr(s: string): (r: string)
    ensures |r| == |s|
    ensures forall i :: 0 <= i < |s| ==> r[i] == Lower(s[i])
  {
    seq(|s|, i requires 0 <= i < |s| => Lower(s[i]))
  }

  /** Every character of `s` satisfies `p`. */
  predicate All(p: char -> bool, s: string) {
    forall i :: 0 <= i < |s| ==> p(s[i])
  }

  /** No character of `s` satisfies `p`. */
  predicate NoneOf(p: char -> bool, s: string) {
    forall i :: 0 <= i < |s| ==> !p(s[i])
  }

  // ---------------------------------------------------------------------------
  // Maximal runs: str.split(), splitlines() without blank lines, re.findall(r'\w+')
  // ---------------------------------------------------------------------------

  /** Length of the longest prefix of `s` whose characters satisfy `p`. */
  function RunLength(p: char -> bool, s: string): (k: nat)
    ensures k <= |s|
    ensures All(p, s[..k])
    ensures k < |s| ==> !p(s[k])
  {
    if |s| == 0 || !p(s[0]) then 0 else 1 + RunLength(p, s[1..])
  }

  /** A prefix of `k` characters satisfying `p` is part of the leading run. */
  lemma {:induction false} RunLengthCovers(p: char -> bool, s: string, k: nat)
    requires k <= |s| && All(p, s[..k])
    ensures RunLength(p, s) >= k
  {
    if k > 0 {
      assert p(s[..k][0]);
      assert s[1..][..k - 1] == s[..k][1..];
      RunLengthCovers(p, s[1..], k - 1);
    }
  }

  /** The maximal non-empty runs of characters satisfying `p`, left to right. */
  function Runs(p: char -> bool, s: string): (r: seq<string>)
    ensures forall i :: 0 <= i < |r| ==> |r[i]| > 0 && All(p, r[i])
    decreases |s|
  {
    if |s| == 0 then []
    else if !p(s[0]) then Runs(p, s[1..])
    else
      var k := RunLength(p, s);
      [s[..k]] + Runs(p, s[k..])
  }

  /** `str.split()` with no argument: the maximal runs of non-whitespace. */
  function Words(s: string): seq<string> {
    Runs(NotSpace, s)
  }

  /** The runs of every string of `xs`, concatenated. */
  function RunsAll(p: char -> bool, xs: seq<string>): seq<string> {
    if |xs| == 0 then [] else Runs(p, xs[0]) + RunsAll(p, xs[1..])
  }

  lemma {:induction false} RunLengthStops(p: char -> bool, a: string, t: string)
    requires |t| > 0 && !p(t[0])
    ensures RunLength(p, a + t) == RunLength(p, a)
    decreases |a|
  {
    if |a| > 0 && p(a[0]) {
      assert (a + t)[1..] == a[1..] + t;
      RunLengthStops(p, a[1..], t);
    }
  }

  /** A character outside the class splits the runs of a concatenation. */
  lemma {:induction false} RunsSplit(p: char -> bool, a: string, c: char, b: string)
    requires !p(c)
    ensures Runs(p, a + [c] + b) == Runs(p, a) + Runs(p, b)
    decreases |a|
  {
    if |a| == 0 {
      assert (a + [c] + b)[1..] == b;
    } else if !p(a[0]) {
      RunsSplit(p, a[1..], c, b);
      RunsSplitSkip(p, a, c, b);
    } else {
      RunsSplit(p, a[RunLength(p, a)..], c, b);
      RunsSplitRun(p, a, c, b);
    }
  }

  /** The inductive step of `RunsSplit` when `a` starts outside the class. */
  lemma RunsSplitSkip(p: char -> bool, a: string, c: char, b: string)
    requires !p(c) && |a| > 0 && !p(a[0])
    requires Runs(p, a[1..] + [c] + b) == Runs(p, a[1..]) + Runs(p, b)
    ensures Runs(p, a + [c] + b) == Runs(p, a) + Runs(p, b)
  {
    var s := a + [c] + b;
    ConcatTail(a, c, b);
    RunsSkip(p, s);
    RunsSkip(p, a);
  }

  lemma ConcatTail(a: string, c: char, b: string)
    requires |a| > 0
    ensures (a + [c] + b)[0] == a[0] && (a + [c] + b)[1..] == a[1..] + [c] + b
  {
  }

  /** A leading character outside the class is skipped. */
  lemma RunsSkip(p: char -> bool, s: string)
    requires |s| > 0 && !p(s[0])
    ensures Runs(p, s) == Runs(p, s[1..])
  {
  }

  /** The inductive step of `RunsSplit` when `a` starts with a run. */
  lemma RunsSplitRun(p: char -> bool, a: string, c: char, b: string)
    requires !p(c) && |a| > 0 && p(a[0])
    requires Runs(p, a[RunLength(p, a)..] + [c] + b) == Runs(p, a[RunLength(p, a)..]) + Runs(p, b)
    ensures Runs(p, a + [c] + b) == Runs(p, a) + Runs(p, b)
  {
    var k := RunLength(p, a);
    RunsSplitFirstRun(p, a, c, b);
    RunsFirstRun(p, a);
    var h, u := a[..k], a[k..];
    assert [h] + (Runs(p, u) + Runs(p, b)) == [h] + Runs(p, u) + Runs(p, b);
  }

  /** A string that starts inside the class starts with its leading run. */
  lemma RunsFirstRun(p: char -> bool, a: string)
    requires |a| > 0 && p(a[0])
    ensures Runs(p, a) == [a[..RunLength(p, a)]] + Runs(p, a[RunLength(p, a)..])
  {
  }

  /** The first run of `a + [c] + b` is the first run of `a` when `a` starts inside the class. */
  lemma RunsSplitFirstRun(p: char -> bool, a: string, c: char, b: string)
    requires !p(c) && |a| > 0 && p(a[0])
    ensures var k := RunLength(p, a);
      Runs(p, a + [c] + b) == [a[..k]] + Runs(p, a[k..] + [c] + b)
  {
    var s := a + [c] + b;
    RunLengthStops(p, a, [c] + b);
    assert s == a + ([c] + b);
    var k := RunLength(p, a);
    assert s[..k] == a[..k];
    assert s[k..] == a[k..] + [c] + b;
  }

  /** Characters outside the class contribute no run. */
  lemma {:induction false} RunsOfNone(p: char -> bool, s: string)
    requires NoneOf(p, s)
    ensures Runs(p, s) == []
    decreases |s|
  {
    if |s| > 0 {
      RunsOfNone(p, s[1..]);
    }
  }

  /** A non-empty string of class characters is a single run. */
  lemma RunsOfAll(p: char -> bool, w: string)
    requires |w| > 0 && All(p, w)
    ensures Runs(p, w) == [w]
  {
    assert p(w[0]);
    var k := RunLength(p, w);
    assert k == |w|;
    assert w[..k] == w;
    assert w[k..] == [];
  }

  lemma {:induction false} RunsDropPrefix(p: char -> bool, s: string, k: nat)
    requires k <= |s| && NoneOf(p, s[..k])
    ensures Runs(p, s) == Runs(p, s[k..])
    decreases k
  {
    if k > 0 {
      assert !p(s[..k][0]);
      assert s[1..][..k - 1] == s[1..k];
      assert s[1..][k - 1..] == s[k..];
      RunsDropPrefix(p, s[1..], k - 1);
    }
  }

  /** What holds of no character of `u` holds of none of its tail. */
  lemma NoneOfTail(p: char -> bool, u: string)
    requires |u| > 0 && NoneOf(p, u)
    ensures !p(u[0]) && NoneOf(p, u[1..])
  {
    forall i | 0 <= i < |u| - 1
      ensures !p(u[1..][i])
    {
      assert u[1..][i] == u[i + 1];
    }
  }

  lemma RunsDropSuffix(p: char -> bool, s: string, k: nat)
    requires k <= |s| && NoneOf(p, s[k..])
    ensures Runs(p, s) == Runs(p, s[..k])
  {
    assert s == s[..k] + s[k..];
    RunsDropNone(p, s[..k], s[k..]);
  }

  /** Appending characters outside the class adds no run. */
  lemma RunsDropNone(p: char -> bool, a: string, u: string)
    requires NoneOf(p, u)
    ensures Runs(p, a + u) == Runs(p, a)
  {
    if |u| > 0 {
      NoneOfTail(p, u);
      assert a + u == a + [u[0]] + u[1..];
      RunsSplit(p, a, u[0], u[1..]);
      RunsOfNone(p, u[1..]);
    } else {
      assert a + u == a;
    }
  }

  /** Joining with a one-character separator outside the class concatenates runs. */
  lemma {:induction false} RunsOfJoin(p: char -> bool, c: char, xs: seq<string>)
    requires !p(c)
    ensures Runs(p, Join([c], xs)) == RunsAll(p, xs)
    decreases |xs|
  {
    if |xs| == 1 {
      assert RunsAll(p, xs[1..]) == [];
    } else if |xs| > 1 {
      RunsSplit(p, xs[0], c, Join([c], xs[1..]));
      RunsOfJoin(p, c, xs[1..]);
    }
  }

  /** Round trip: the runs of a separator-joined list of runs give the list back. */
  lemma {:induction false} RunsJoinRoundTrip(p: char -> bool, c: char, xs: seq<string>)
    requires !p(c)
    requires forall i :: 0 <= i < |xs| ==> |xs[i]| > 0 && All(p, xs[i])
    ensures Runs(p, Join([c], xs)) == xs
  {
    RunsOfJoin(p, c, xs);
    RunsAllOfRuns(p, xs);
  }

  lemma {:induction false} RunsAllOfRuns(p: char -> bool, xs: seq<string>)
    requires forall i :: 0 <= i < |xs| ==> |xs[i]| > 0 && All(p, xs[i])
    ensures RunsAll(p, xs) == xs
    decreases |xs|
  {
    if |xs| > 0 {
      RunsOfAll(p, xs[0]);
      RunsAllOfRuns(p, xs[1..]);
    }
  }

  lemma {:induction false} RunsAllAppend(p: char -> bool, a: seq<string>, b: seq<string>)
    ensures RunsAll(p, a + b) == RunsAll(p, a) + RunsAll(p, b)
    decreases |a|
  {
    if |a| > 0 {
      assert (a + b)[1..] == a[1..] + b;
      RunsAllAppend(p, a[1..], b);
    } else {
      assert a + b == b;
    }
  }

  /** Splitting into runs of a coarser class `q` first and then into runs of
      `p` gives the runs of `p` directly (`str.split()` of every line is
      `str.split()` of the text, since line breaks are whitespace). */
  lemma {:induction false} RunsRefine(p: char -> bool, q: char -> bool, s: string)
    requires forall c :: p(c) ==> q(c)
    ensures RunsAll(p, Runs(q, s)) == Runs(p, s)
    decreases |s|
  {
    if |s| > 0 {
      if !q(s[0]) {
        RunsRefine(p, q, s[1..]);
      } else {
        var k := RunLength(q, s);
        assert Runs(q, s) == [s[..k]] + Runs(q, s[k..]);
        RunsRefine(p, q, s[k..]);
        RunsAllAppend(p, [s[..k]], Runs(q, s[k..]));
        assert RunsAll(p, [s[..k]]) == Runs(p, s[..k]) + RunsAll(p, []);
        if k < |s| {
          var a, c, b := s[..k], s[k], s[k + 1..];
          assert s == a + [c] + b;
          RunsSplit(p, a, c, b);
          assert s[k..][1..] == b;
        } else {
          assert s[..k] == s;
        }
      }
    }
  }

  /** A property every character of `s` has, every run of `s` has too. */
  lemma {:induction false} RunsInherit(p: char -> bool, q: char -> bool, s: string)
    requires All(q, s)
    ensures forall i :: 0 <= i < |Runs(p, s)| ==> All(q, Runs(p, s)[i])
    decreases |s|
  {
    if |s| > 0 {
      if !p(s[0]) {
        assert All(q, s[1..]) by {
          forall i | 0 <= i < |s[1..]|
            ensures q(s[1..][i])
          {
            assert s[1..][i] == s[i + 1];
          }
        }
        RunsInherit(p, q, s[1..]);
      } else {
        var k := RunLength(p, s);
        assert All(q, s[k..]) by {
          forall i | 0 <= i < |s[k..]|
            ensures q(s[k..][i])
          {
            assert s[k..][i] == s[k + i];
          }
        }
        assert All(q, s[..k]) by {
          forall i | 0 <= i < k
            ensures q(s[..k][i])
          {
            assert s[..k][i] == s[i];
          }
        }
        RunsInherit(p, q, s[k..]);
      }
    }
  }

  // ---------------------------------------------------------------------------
  // str.join
  // ---------------------------------------------------------------------------

  /** `sep.join(xs)`. */
  function Join(sep: string, xs: seq<string>): string {
    if |xs| == 0 then ""
    else if |xs| == 1 then xs[0]
    else xs[0] + sep + Join(sep, xs[1..])
  }

  /** `Join` of a list whose first element starts with `c` starts with `c`; likewise for the end. */
  lemma {:induction false} JoinEnds(sep: string, xs: seq<string>)
    requires |xs| > 0 && forall i :: 0 <= i < |xs| ==> |xs[i]| > 0
    ensures |Join(sep, xs)| > 0
    ensures Join(sep, xs)[0] == xs[0][0]
    ensures Join(sep, xs)[|Join(sep, xs)| - 1] == xs[|xs| - 1][|xs[|xs| - 1]| - 1]
    decreases |xs|
  {
    if |xs| > 1 {
      JoinEnds(sep, xs[1..]);
    }
  }

  /** `Join` starts with the first string and ends with the last. */
  lemma {:induction false} JoinBounds(sep: string, xs: seq<string>)
    requires |xs| > 0
    ensures xs[0] <= Join(sep, xs)
    ensures |xs[|xs| - 1]| <= |Join(sep, xs)|
    ensures Join(sep, xs)[|Join(sep, xs)| - |xs[|xs| - 1]|..] == xs[|xs| - 1]
    decreases |xs|
  {
    if |xs| > 1 {
      JoinBounds(sep, xs[1..]);
      var j := Join(sep, xs[1..]);
      assert Join(sep, xs) == (xs[0] + sep) + j;
    }
  }

  /** A property of every joined string and of the separator holds of the join. */
  lemma {:induction false} JoinInherits(q: char -> bool, sep: string, xs: seq<string>)
    requires All(q, sep)
    requires forall i :: 0 <= i < |xs| ==> All(q, xs[i])
    ensures All(q, Join(sep, xs))
    decreases |xs|
  {
    if |xs| > 1 {
      JoinInherits(q, sep, xs[1..]);
      var j := Join(sep, xs[1..]);
      assert xs[0] + sep + j == xs[0] + (sep + j);
      forall i | 0 <= i < |xs[0] + sep + j|
        ensures q((xs[0] + sep + j)[i])
      {
        if i < |xs[0]| {
        } else if i < |xs[0]| + |sep| {
          assert (xs[0] + sep + j)[i] == sep[i - |xs[0]|];
        } else {
          assert (xs[0] + sep + j)[i] == j[i - |xs[0]| - |sep|];
        }
      }
    }
  }

  /** A join whose first and last pieces are non-empty and stripped is stripped. */
  lemma JoinStripped(sep: string, xs: seq<string>)
    requires |xs| > 0 && xs[0] != [] && xs[|xs| - 1] != []
    requires Stripped(xs[0]) && Stripped(xs[|xs| - 1])
    ensures Stripped(Join(sep, xs))
  {
    var j, last := Join(sep, xs), xs[|xs| - 1];
    JoinBounds(sep, xs);
    assert j[0] == xs[0][0];
    assert j[|j| - 1] == last[|last| - 1] by {
      assert j[|j| - |last|..][|last| - 1] == last[|last| - 1];
    }
  }

  /** Where piece `i` of `sep.join(xs)` starts: after every piece before it,
      each followed by one separator. */
  function JoinOffset(sep: string, xs: seq<string>, i: nat): nat
    requires i <= |xs|
    decreases i
  {
    if i == 0 then 0 else |xs[0]| + |sep| + JoinOffset(sep, xs[1..], i - 1)
  }

  /** Piece `i` of `xs` stands in `s` at its offset, and a separator follows
      it unless it is the last. */
  predicate PieceAt(s: string, sep: string, xs: seq<string>, i: nat)
    requires i < |xs|
  {
    var o := JoinOffset(sep, xs, i);
    && o + |xs[i]| <= |s|
    && s[o..o + |xs[i]|] == xs[i]
    && (i + 1 < |xs| ==> o + |xs[i]| + |sep| <= |s| && s[o + |xs[i]|..o + |xs[i]| + |sep|] == sep)
  }

  /** `s` is the pieces `xs` in order with `sep` between neighbours and
      nothing else: every piece and separator at its place, and the length
      of all of them together. */
  predicate Joined(s: string, sep: string, xs: seq<string>) {
    && (if |xs| == 0 then |s| == 0 else |s| + |sep| == JoinOffset(sep, xs, |xs|))
    && forall i :: 0 <= i < |xs| ==> PieceAt(s, sep, xs, i)
  }

  /** `sep.join(xs)` is laid out as `Joined` says. */
  lemma {:induction false} JoinIsJoined(sep: string, xs: seq<string>)
    ensures Joined(Join(sep, xs), sep, xs)
    decreases |xs|
  {
    if |xs| == 1 {
      assert PieceAt(Join(sep, xs), sep, xs, 0);
    } else if |xs| > 1 {
      JoinIsJoined(sep, xs[1..]);
      JoinedCons(Join(sep, xs[1..]), sep, xs);
    }
  }

  /** A first piece and a separator in front of a joined tail give a joined whole. */
  lemma JoinedCons(t: string, sep: string, xs: seq<string>)
    requires |xs| > 1 && Joined(t, sep, xs[1..])
    ensures Joined(xs[0] + sep + t, sep, xs)
  {
    var s := xs[0] + sep + t;
    var h := |xs[0]| + |sep|;
    assert s[..|xs[0]|] == xs[0] && s[|xs[0]|..h] == sep && s[h..] == t;
    forall i | 0 <= i < |xs|
      ensures PieceAt(s, sep, xs, i)
    {
      if i > 0 {
        assert PieceAt(t, sep, xs[1..], i - 1);
        ShiftedPiece(s, t, sep, xs, i, h);
      }
    }
  }

  /** Piece `i` of `xs` sits `h` characters later in `s` than piece `i - 1`
      of `xs[1..]` sits in the tail `t` of `s`. */
  lemma ShiftedPiece(s: string, t: string, sep: string, xs: seq<string>, i: nat, h: nat)
    requires 0 < i < |xs| && h == |xs[0]| + |sep| && h <= |s| && s[h..] == t
    requires PieceAt(t, sep, xs[1..], i - 1)
    ensures PieceAt(s, sep, xs, i)
  {
    var o', n := JoinOffset(sep, xs[1..], i - 1), |xs[i]|;
    assert JoinOffset(sep, xs, i) == h + o';
    assert xs[1..][i - 1] == xs[i];
    assert s[h + o'..h + o' + n] == xs[i];
    SliceOfSuffix(s, h, o', o' + n);
    assert t[o'..o' + n] == xs[i];
    if i + 1 < |xs| {
      assert s[h + o' + n..h + o' + n + |sep|] == sep;
      SliceOfSuffix(s, h, o' + n, o' + n + |sep|);
      assert t[o' + n..o' + n + |sep|] == sep;
    }
  }

  /** Only `sep.join(xs)` is laid out as `Joined` says. */
  lemma {:induction false} JoinedIsJoin(s: string, sep: string, xs: seq<string>)
    requires Joined(s, sep, xs)
    ensures s == Join(sep, xs)
    decreases |xs|
  {
    if |xs| == 1 {
      assert PieceAt(s, sep, xs, 0);
    } else if |xs| > 1 {
      var h := |xs[0]| + |sep|;
      assert PieceAt(s, sep, xs, 0);
      var t := s[h..];
      JoinedTail(s, t, sep, xs);
      JoinedIsJoin(t, sep, xs[1..]);
      assert s == s[..|xs[0]|] + s[|xs[0]|..h] + t;
    }
  }

  /** What follows the first piece and separator of a joined string is the
      joined tail. */
  lemma JoinedTail(s: string, t: string, sep: string, xs: seq<string>)
    requires |xs| > 1 && Joined(s, sep, xs) && |xs[0]| + |sep| <= |s| && t == s[|xs[0]| + |sep|..]
    ensures Joined(t, sep, xs[1..])
  {
    var h := |xs[0]| + |sep|;
    forall i | 0 <= i < |xs| - 1
      ensures PieceAt(t, sep, xs[1..], i)
    {
      assert PieceAt(s, sep, xs, i + 1);
      UnshiftedPiece(s, t, sep, xs, i + 1, h);
    }
  }

  /** A slice of a suffix is a slice of the whole, shifted. */
  lemma SliceOfSuffix(s: string, h: nat, a: nat, b: nat)
    requires h <= |s| && a <= b <= |s| - h
    ensures s[h + a..h + b] == s[h..][a..b]
  {
  }

  /** The converse of `ShiftedPiece`. */
  lemma UnshiftedPiece(s: string, t: string, sep: string, xs: seq<string>, i: nat, h: nat)
    requires 0 < i < |xs| && h == |xs[0]| + |sep| && h <= |s| && s[h..] == t
    requires PieceAt(s, sep, xs, i)
    ensures PieceAt(t, sep, xs[1..], i - 1)
  {
    var o', n := JoinOffset(sep, xs[1..], i - 1), |xs[i]|;
    assert JoinOffset(sep, xs, i) == h + o';
    assert xs[1..][i - 1] == xs[i];
    assert s[h + o'..h + o' + n] == xs[i];
    SliceOfSuffix(s, h, o', o' + n);
    assert t[o'..o' + n] == xs[i];
    if i + 1 < |xs| {
      assert s[h + o' + n..h + o' + n + |sep|] == sep;
      SliceOfSuffix(s, h, o' + n, o' + n + |sep|);
      assert t[o' + n..o' + n + |sep|] == sep;
    }
  }

  // ---------------------------------------------------------------------------
  // str.strip
  // ---------------------------------------------------------------------------

  /** Neither end of `s` is whitespace. */
  predicate Stripped(s: string) {
    |s| > 0 ==> !IsSpace(s[0]) && !IsSpace(s[|s| - 1])
  }

  /** `str.strip()`: `s` without leading and trailing whitespace. */
  function Strip(s: string): (r: string)
    ensures Stripped(r)
    ensures |r| <= |s|
    decreases |s|
  {
    if |s| == 0 then s
    else if IsSpace(s[0]) then Strip(s[1..])
    else if IsSpace(s[|s| - 1]) then Strip(s[..|s| - 1])
    else s
  }

  /** Number of leading whitespace characters `strip()` removes. */
  function StripStart(s: string): (n: nat)
    ensures n <= |s|
  {
    if |s| > 0 && IsSpace(s[0]) then 1 + StripStart(s[1..]) else 0
  }

  /** `r` is the slice of `s` at `a`, with only whitespace before and after it. */
  predicate Surrounded(s: string, a: nat, r: string) {
    && a + |r| <= |s|
    && r == s[a..a + |r|]
    && NoneOf(NotSpace, s[..a])
    && NoneOf(NotSpace, s[a + |r|..])
  }

  /** A leading whitespace character moves the slice one place. */
  lemma SurroundedFront(s: string, a: nat, r: string)
    requires |s| > 0 && IsSpace(s[0]) && Surrounded(s[1..], a, r)
    ensures Surrounded(s, a + 1, r)
  {
    var t := s[1..];
    assert s[1 + a..1 + a + |r|] == t[a..a + |r|];
    assert s[1 + a + |r|..] == t[a + |r|..];
    assert s[..1 + a] == [s[0]] + t[..a];
  }

  /** A trailing whitespace character extends what follows the slice. */
  lemma SurroundedBack(s: string, r: string)
    requires |s| > 0 && IsSpace(s[|s| - 1]) && Surrounded(s[..|s| - 1], 0, r)
    ensures Surrounded(s, 0, r)
  {
    var t := s[..|s| - 1];
    assert s[..|r|] == t[..|r|];
    assert s[|r|..] == t[|r|..] + [s[|s| - 1]];
  }

  /** `strip(s)` is the slice of `s` that starts after the leading whitespace
      and is followed only by whitespace. */
  lemma StripSlice(s: string)
    ensures StripStart(s) + |Strip(s)| <= |s|
    ensures Strip(s) == s[StripStart(s)..StripStart(s) + |Strip(s)|]
    ensures NoneOf(NotSpace, s[..StripStart(s)])
    ensures NoneOf(NotSpace, s[StripStart(s) + |Strip(s)|..])
  {
    StripSurrounded(s);
  }

  lemma {:induction false} StripSurrounded(s: string)
    ensures Surrounded(s, StripStart(s), Strip(s))
    decreases |s|
  {
    if |s| == 0 {
    } else if IsSpace(s[0]) {
      StripSurrounded(s[1..]);
      SurroundedFront(s, StripStart(s[1..]), Strip(s[1..]));
    } else if IsSpace(s[|s| - 1]) {
      var t := s[..|s| - 1];
      StripSurrounded(t);
      assert t[0] == s[0];
      SurroundedBack(s, Strip(t));
    } else {
      assert s[..0] == [] && s[|s|..] == [];
    }
  }

  /** `strip(s)` is empty exactly when `s` is all whitespace. */
  lemma StripEmpty(s: string)
    ensures Strip(s) == [] <==> All(IsSpace, s)
  {
    StripSlice(s);
    var a, r := StripStart(s), Strip(s);
    if r == [] {
      forall i | 0 <= i < |s|
        ensures IsSpace(s[i])
      {
        if i < a {
          assert s[..a][i] == s[i];
        } else {
          assert s[a + |r|..][i - a] == s[i];
        }
      }
    } else {
      assert s[a] == r[0];
    }
  }

  lemma StripKeepsWords(s: string)
    ensures Words(Strip(s)) == Words(s)
  {
    StripSurrounded(s);
    var a := StripStart(s);
    var r := Strip(s);
    var post := s[a + |r|..];
    RunsDropPrefix(NotSpace, s, a);
    assert s[a..] == r + post;
    RunsDropNone(NotSpace, r, post);
  }

  /** `strip()` does nothing to an already stripped string (so it is idempotent). */
  lemma StripOfStripped(s: string)
    requires Stripped(s)
    ensures Strip(s) == s
  {
  }

  /** A property of every character of `s` holds of every character of `strip(s)`. */
  lemma StripInherits(q: char -> bool, s: string)
    requires All(q, s)
    ensures All(q, Strip(s))
  {
    StripSlice(s);
    var a := StripStart(s);
    var r := Strip(s);
    forall i | 0 <= i < |r|
      ensures q(r[i])
    {
      assert r[i] == s[a + i];
    }
  }

  // ---------------------------------------------------------------------------
  // Slicing and indexing
  // ---------------------------------------------------------------------------

  /** `[x for x in xs if keep(x)]`. */
  function Filter<T>(keep: T -> bool, xs: seq<T>): (r: seq<T>)
    ensures |r| <= |xs|
    ensures forall i :: 0 <= i < |r| ==> keep(r[i])
  {
    if |xs| == 0 then []
    else (if keep(xs[0]) then [xs[0]] else []) + Filter(keep, xs[1..])
  }

  /** Filtering a list whose kept elements form a prefix yields that prefix. */
  lemma {:induction false} FilterPrefix<T>(keep: T -> bool, xs: seq<T>, m: nat)
    requires m <= |xs|
    requires forall i :: 0 <= i < |xs| ==> (keep(xs[i]) <==> i < m)
    ensures Filter(keep, xs) == xs[..m]
  {
    if |xs| > 0 {
      var m' := if m > 0 then m - 1 else 0;
      assert forall i :: 0 <= i < |xs| - 1 ==> xs[1..][i] == xs[i + 1];
      FilterPrefix(keep, xs[1..], m');
      if m > 0 {
        assert xs[..m] == [xs[0]] + xs[1..][..m'];
      }
    }
  }

  /** Filtering keeps a list whose elements are all kept. */
  lemma FilterAll<T>(keep: T -> bool, xs: seq<T>)
    requires forall i :: 0 <= i < |xs| ==> keep(xs[i])
    ensures Filter(keep, xs) == xs
  {
    FilterPrefix(keep, xs, |xs|);
    assert xs[..|xs|] == xs;
  }

  /** How Python clamps a slice bound `x` against a length `n`: a negative bound
      counts from the end, then both are clipped to `0..n`. */
  function SliceBound(n: nat, x: int): (b: nat)
    ensures b <= n
    ensures 0 <= x <= n ==> b == x
    ensures x > n ==> b == n
  {
    if x < 0 then (if n + x < 0 then 0 else n + x)
    else if x > n then n
    else x
  }

  /** `s[a:b]` with Python's slice semantics. */
  function Slice<T>(s: seq<T>, a: int, b: int): (r: seq<T>)
    ensures 0 <= a <= b ==> r == s[SliceBound(|s|, a)..SliceBound(|s|, b)]
  {
    var lo := SliceBound(|s|, a);
    var hi := SliceBound(|s|, b);
    if lo < hi then s[lo..hi] else []
  }

  /** `s[i]`: a negative index counts from the end; `None` is the `IndexError`. */
  function Index<T>(s: seq<T>, i: int): (r: Option<T>)
    ensures r.None? <==> (i >= |s| || i < -|s|)
    ensures 0 <= i < |s| ==> r == Some(s[i])
    ensures -|s| <= i < 0 ==> r == Some(s[|s| + i])
  {
    if 0 <= i < |s| then Some(s[i])
    else if -|s| <= i < 0 then Some(s[|s| + i])
    else None
  }

  // ---------------------------------------------------------------------------
  // Substrings
  // ---------------------------------------------------------------------------

  predicate OccursAt(s: string, pat: string, j: int) {
    0 <= j && j + |pat| <= |s| && s[j..j + |pat|] == pat
  }

  /** `pat in s`. */
  predicate Contains(s: string, pat: string) {
    exists j :: 0 <= j <= |s| && OccursAt(s, pat, j)
  }

  /** `s.find(pat, from)` for a non-empty pattern, as an `Option`. */
  function FindFrom(s: string, pat: string, from: nat): (r: Option<nat>)
    requires |pat| > 0
    ensures r.Some? ==> from <= r.value && OccursAt(s, pat, r.value)
    ensures r.Some? ==> forall j :: from <= j < r.value ==> !OccursAt(s, pat, j)
    ensures r.None? ==> forall j :: from <= j ==> !OccursAt(s, pat, j)
    decreases |s| - from
  {
    if from + |pat| > |s| then None
    else if s[from..from + |pat|] == pat then Some(from)
    else FindFrom(s, pat, from + 1)
  }

  /** The first occurrence of `pat` in `s`. */
  function Find(s: string, pat: string): (r: Option<nat>)
    requires |pat| > 0
    ensures r.None? <==> !Contains(s, pat)
    ensures r.Some? ==> OccursAt(s, pat, r.value) && forall j :: 0 <= j < r.value ==> !OccursAt(s, pat, j)
  {
    FindFrom(s, pat, 0)
  }

  /** `s.replace(pat, rep)`: every non-overlapping occurrence, left to right. */
  function Replace(s: string, pat: string, rep: string): string
    requires |pat| > 0
    decreases |s|
  {
    if |s| < |pat| then s
    else if s[..|pat|] == pat then rep + Replace(s[|pat|..], pat, rep)
    else [s[0]] + Replace(s[1..], pat, rep)
  }

  /** `s.endswith(suffix)`. */
  predicate EndsWith(s: string, suffix: string) {
    |suffix| <= |s| && s[|s| - |suffix|..] == suffix
  }

  // ---------------------------------------------------------------------------
  // os.path.splitext on a bare file name
  // ---------------------------------------------------------------------------

  function LastIndexOf(s: string, c: char): (r: Option<nat>)
    ensures r.Some? ==> r.value < |s| && s[r.value] == c && forall j :: r.value < j < |s| ==> s[j] != c
    ensures r.None? ==> forall j :: 0 <= j < |s| ==> s[j] != c
  {
    if |s| == 0 then None
    else if s[|s| - 1] == c then Some(|s| - 1)
    else LastIndexOf(s[..|s| - 1], c)
  }

  /** `os.path.splitext(name)[0]`: `name` without its last extension, where
      leading dots do not start an extension. */
  function SplitExtRoot(name: string): string {
    match LastIndexOf(name, '.')
    case None => name
    case Some(i) => if forall j :: 0 <= j < i ==> name[j] == '.' then name else name[..i]
  }

  /** A name whose stem contains a character other than `.` and no `.` after
      it loses exactly its extension. */
  lemma SplitExtRootOf(stem: string, ext: string)
    requires |ext| > 0 && ext[0] == '.' && forall j :: 1 <= j < |ext| ==> ext[j] != '.'
    requires exists j :: 0 <= j < |stem| && stem[j] != '.'
    ensures SplitExtRoot(stem + ext) == stem
  {
    var name := stem + ext;
    var j :| 0 <= j < |stem| && stem[j] != '.';
    assert name[j] == stem[j];
    assert name[|stem|] == '.';
    var r := LastIndexOf(name, '.');
    assert r.Some?;
    assert r.value >= |stem|;
    assert forall j :: |stem| < j < |name| ==> name[j] == ext[j - |stem|];
    assert name[..|stem|] == stem;
  }

  // ---------------------------------------------------------------------------
  // String order and sorted()
  // ---------------------------------------------------------------------------

  /** `a <= b` on Python strings: code-point order, a prefix before its extensions. */
  predicate LexLe(a: string, b: string)
    decreases |a|
  {
    |a| == 0 || (|b| > 0 && (a[0] < b[0] || (a[0] == b[0] && LexLe(a[1..], b[1..]))))
  }

  /** Any two strings are ordered one way or the other. */
  lemma {:induction false} LexLeTotal(a: string, b: string)
    ensures LexLe(a, b) || LexLe(b, a)
    decreases |a|
  {
    if |a| > 0 && |b| > 0 && a[0] == b[0] {
      LexLeTotal(a[1..], b[1..]);
    }
  }

  lemma {:induction false} LexLeAntisymmetric(a: string, b: string)
    requires LexLe(a, b) && LexLe(b, a)
    ensures a == b
    decreases |a|
  {
    if |a| > 0 {
      LexLeAntisymmetric(a[1..], b[1..]);
      assert a == [a[0]] + a[1..] && b == [b[0]] + b[1..];
    }
  }

  /** Each string is at most the next one. */
  predicate SortedStrings(xs: seq<string>) {
    forall i :: 0 <= i < |xs| - 1 ==> LexLe(xs[i], xs[i + 1])
  }

  /** Puts `x` before the first element it does not exceed. */
  function InsertString(x: string, xs: seq<string>): (r: seq<string>)
    ensures multiset(r) == multiset(xs) + multiset{x}
    ensures |r| > 0 && (r[0] == x || (|xs| > 0 && r[0] == xs[0]))
  {
    if |xs| == 0 || LexLe(x, xs[0]) then [x] + xs
    else
      assert xs == [xs[0]] + xs[1..];
      [xs[0]] + InsertString(x, xs[1..])
  }

  lemma {:induction false} InsertStringSorted(x: string, xs: seq<string>)
    requires SortedStrings(xs)
    ensures SortedStrings(InsertString(x, xs))
  {
    if |xs| > 0 && !LexLe(x, xs[0]) {
      LexLeTotal(x, xs[0]);
      InsertStringSorted(x, xs[1..]);
      var r' := InsertString(x, xs[1..]);
      assert InsertString(x, xs) == [xs[0]] + r';
    }
  }

  /** `sorted(xs)` on a list of strings. */
  function SortStrings(xs: seq<string>): (r: seq<string>)
    ensures multiset(r) == multiset(xs)
    ensures |r| == |xs|
    ensures SortedStrings(r)
  {
    if |xs| == 0 then []
    else
      assert xs == [xs[0]] + xs[1..];
      InsertStringSorted(xs[0], SortStrings(xs[1..]));
      InsertString(xs[0], SortStrings(xs[1..]))
  }

  // ---------------------------------------------------------------------------
  // Decimal numerals: str(n) and int(s)
  // ---------------------------------------------------------------------------

  function DigitChar(d: nat): (c: char)
    requires d < 10
  {
    ('0' as int + d) as char
  }

  /** `str(n)` for a natural number. */
  function NatToString(n: nat): (s: string)
    ensures |s| > 0
    ensures forall i :: 0 <= i < |s| ==> '0' <= s[i] <= '9'
  {
    if n < 10 then [DigitChar(n)] else NatToString(n / 10) + [DigitChar(n % 10)]
  }

  /** `int(s)` for a non-empty string of decimal digits. */
  function ParseNat(s: string): nat
    requires forall i :: 0 <= i < |s| ==> '0' <= s[i] <= '9'
  {
    if |s| == 0 then 0 else 10 * ParseNat(s[..|s| - 1]) + (s[|s| - 1] as int - '0' as int)
  }

  /** Round trip: reading back `str(n)` gives `n`, so `str` is injective on naturals. */
  lemma {:induction false} ParseNatToString(n: nat)
    ensures ParseNat(NatToString(n)) == n
  {
    if n >= 10 {
      var s := NatToString(n);
      assert s[..|s| - 1] == NatToString(n / 10);
      ParseNatToString(n / 10);
    }
  }

  lemma NatToStringInjective(m: nat, n: nat)
    requires NatToString(m) == NatToString(n)
    ensures m == n
  {
    ParseNatToString(m);
    ParseNatToString(n);
  }
}
