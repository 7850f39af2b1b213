/** The three pieces of Python's `str` that the README editor relies on:
    `s.split('\n')`, `'\n'.join(lines)` and the substring test `m in s`. */
module PyStr {

  /** A line in the sense of `split('\n')`: it holds no newline character. */
  predicate NoNewline(s: string)
  {
    forall k :: 0 <= k < |s| ==> s[k] != '\n'
  }

  /** Index of the first newline at or after `i`, or `|s|` when there is none. */
  function NextNewline(s: string, i: nat): (r: nat)
    requires i <= |s|
    ensures i <= r <= |s|
    ensures r < |s| ==> s[r] == '\n'
    ensures forall k :: i <= k < r ==> s[k] != '\n'
    decreases |s| - i
  {
    if i == |s| then |s|
    else if s[i] == '\n' then i
    else NextNewline(s, i + 1)
  }

  /** Python's `s.split('\n')`: the pieces between newlines, always at least one
      (`"".split('\n') == [""]`), none of them holding a newline. */
  function Split(s: string): (r: seq<string>)
    ensures |r| >= 1
    ensures forall k :: 0 <= k < |r| ==> NoNewline(r[k])
    decreases |s|
  {
    var i := NextNewline(s, 0);
    if i == |s| then [s]
    else [s[..i]] + Split(s[i + 1..])
  }

  /** Python's `'\n'.join(lines)`. */
  function Join(lines: seq<string>): string
  {
    if |lines| == 0 then ""
    else if |lines| == 1 then lines[0]
    else lines[0] + "\n" + Join(lines[1..])
  }

  /** `m` occurs in `s` starting at index `k`. */
  predicate OccursAt(s: string, m: string, k: nat)
  {
    k + |m| <= |s| && s[k..k + |m|] == m
  }

  /** Python's `m in s` for strings: `m` is a prefix of some suffix of `s`. */
  function Contains(s: string, m: string): bool
    decreases |s|
  {
    if m <= s then true
    else if |s| == 0 then false
    else Contains(s[1..], m)
  }

  /** An occurrence in the tail of `s` is an occurrence in `s` one position later. */
  lemma OccursShift(s: string, m: string, k: nat)
    requires |s| > 0
    ensures OccursAt(s[1..], m, k) <==> OccursAt(s, m, k + 1)
  {
    if k + 1 + |m| <= |s| {
      assert s[1..][k..k + |m|] == s[k + 1..k + 1 + |m|];
    }
  }

  /** `Contains` is substring occurrence at some position. */
  lemma {:induction false} ContainsIffOccurs(s: string, m: string)
    ensures Contains(s, m) <==> exists k: nat :: OccursAt(s, m, k)
    decreases |s|
  {
    if m <= s {
      assert OccursAt(s, m, 0);
    } else if |s| == 0 {
      assert forall k: nat :: !OccursAt(s, m, k);
    } else {
      ContainsIffOccurs(s[1..], m);
      if Contains(s[1..], m) {
        var k: nat :| OccursAt(s[1..], m, k);
        OccursShift(s, m, k);
      } else {
        assert !OccursAt(s, m, 0);
        forall k: nat | k > 0 ensures !OccursAt(s, m, k) {
          OccursShift(s, m, k - 1);
        }
      }
    }
  }

  /** A non-empty string whose first character never appears in `s` is not in `s`. */
  lemma {:induction false} NotContainsWithoutFirstChar(s: string, m: string)
    requires |m| > 0
    requires forall k :: 0 <= k < |s| ==> s[k] != m[0]
    ensures !Contains(s, m)
    decreases |s|
  {
    if |s| > 0 {
      assert s[0] != m[0];
      NotContainsWithoutFirstChar(s[1..], m);
    }
  }

  /** The first newline is determined by the positions that hold one. */
  lemma {:induction false} NextNewlineAt(s: string, i: nat, j: nat)
    requires i <= j <= |s|
    requires forall k :: i <= k < j ==> s[k] != '\n'
    requires j < |s| ==> s[j] == '\n'
    ensures NextNewline(s, i) == j
    decreases |s| - i
  {
    if i < j {
      NextNewlineAt(s, i + 1, j);
    }
  }

  /** Joining the pieces of a split gives back the original text. */
  lemma {:induction false} JoinSplit(s: string)
    ensures Join(Split(s)) == s
    decreases |s|
  {
    var i := NextNewline(s, 0);
    if i < |s| {
      var rest := Split(s[i + 1..]);
      JoinSplit(s[i + 1..]);
      assert Split(s) == [s[..i]] + rest;
      assert ([s[..i]] + rest)[1..] == rest;
      assert s == s[..i] + "\n" + s[i + 1..];
    }
  }

  /** A newline-free string is a single line. */
  lemma SplitLine(x: string)
    requires NoNewline(x)
    ensures Split(x) == [x]
  {
    NextNewlineAt(x, 0, |x|);
  }

  /** A newline-free line followed by a newline is the first piece. */
  lemma SplitFirstLine(line: string, rest: string)
    requires NoNewline(line)
    ensures Split(line + "\n" + rest) == [line] + Split(rest)
  {
    var s := line + "\n" + rest;
    assert forall k :: 0 <= k < |line| ==> s[k] == line[k];
    NextNewlineAt(s, 0, |line|);
    assert s[..|line|] == line;
    assert s[|line| + 1..] == rest;
  }

  /** Splitting distributes over a newline: the pieces of `a + "\n" + b` are the
      pieces of `a` followed by the pieces of `b`. */
  lemma {:induction false} SplitAroundNewline(a: string, b: string)
    ensures Split(a + "\n" + b) == Split(a) + Split(b)
    decreases |a|
  {
    var i := NextNewline(a, 0);
    if i == |a| {
      SplitLine(a);
      SplitFirstLine(a, b);
    } else {
      var line, a' := a[..i], a[i + 1..];
      calc {
        Split(a + "\n" + b);
        { assert a == line + "\n" + a';
          assert a + "\n" + b == line + "\n" + (a' + "\n" + b); }
        Split(line + "\n" + (a' + "\n" + b));
        { SplitFirstLine(line, a' + "\n" + b); }
        [line] + Split(a' + "\n" + b);
        { SplitAroundNewline(a', b); }
        [line] + (Split(a') + Split(b));
        ([line] + Split(a')) + Split(b);
        { SplitFirstLine(line, a'); }
        Split(line + "\n" + a') + Split(b);
        { assert a == line + "\n" + a'; }
        Split(a) + Split(b);
      }
    }
  }

  /** Splitting the join of newline-free lines gives the lines back. */
  lemma {:induction false} SplitJoin(lines: seq<string>)
    requires |lines| >= 1
    requires forall k :: 0 <= k < |lines| ==> NoNewline(lines[k])
    ensures Split(Join(lines)) == lines
    decreases |lines|
  {
    if |lines| == 1 {
      SplitLine(lines[0]);
    } else {
      calc {
        Split(Join(lines));
        Split(lines[0] + "\n" + Join(lines[1..]));
        { SplitFirstLine(lines[0], Join(lines[1..])); }
        [lines[0]] + Split(Join(lines[1..]));
        { SplitJoin(lines[1..]); }
        [lines[0]] + lines[1..];
        lines;
      }
    }
  }

  /** Appending one more element to a non-empty list adds a newline and that element. */
  lemma {:induction false} JoinSnoc(lines: seq<string>, x: string)
    requires |lines| >= 1
    ensures Join(lines + [x]) == Join(lines) + "\n" + x
    decreases |lines|
  {
    if |lines| > 1 {
      JoinSnoc(lines[1..], x);
      assert (lines + [x])[1..] == lines[1..] + [x];
    }
  }
}
