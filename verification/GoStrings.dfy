/** The functions of Go's `strings` package that the services use. */
module GoStrings {
  import opened Common

  /** The white space of `strings.TrimSpace`. */
  predicate IsSpace(c: char) {
    || '\t' <= c <= '\r' || c == ' ' || c == '\U{85}' || c == '\U{A0}' || c == '\U{1680}'
    || '\U{2000}' <= c <= '\U{200A}' || c == '\U{2028}' || c == '\U{2029}' || c == '\U{202F}'
    || c == '\U{205F}' || c == '\U{3000}'
  }

  function TrimLeft(s: string): string {
    if s != "" && IsSpace(s[0]) then TrimLeft(s[1..]) else s
  }

  function TrimRight(s: string): string {
    if s != "" && IsSpace(s[|s| - 1]) then TrimRight(s[..|s| - 1]) else s
  }

  function TrimSpace(s: string): string {
    TrimRight(TrimLeft(s))
  }

  predicate OccursAt(s: string, part: string, i: nat) {
    i + |part| <= |s| && s[i..i + |part|] == part
  }

  predicate Contains(s: string, part: string) {
    exists i: nat :: i <= |s| && OccursAt(s, part, i)
  }

  predicate HasPrefix(s: string, prefix: string) {
    prefix <= s
  }

  lemma {:induction false} TrimIsSlice(s: string) returns (i: nat, j: nat)
    ensures i <= j <= |s| && TrimSpace(s) == s[i..j]
    decreases |s|
  {
    if s != "" && IsSpace(s[0]) {
      i, j := TrimIsSlice(s[1..]);
      assert s[1..][i..j] == s[i + 1..j + 1];
      i, j := i + 1, j + 1;
    } else {
      i := 0;
      j := TrimRightIsPrefix(s);
    }
  }

  lemma {:induction false} TrimRightIsPrefix(s: string) returns (j: nat)
    ensures j <= |s| && TrimRight(s) == s[..j]
    decreases |s|
  {
    if s != "" && IsSpace(s[|s| - 1]) {
      j := TrimRightIsPrefix(s[..|s| - 1]);
      assert s[..|s| - 1][..j] == s[..j];
    } else {
      j := |s|;
    }
  }

  /** Among ASCII characters white space is the blank and the five control characters from tab to return. */
  lemma AsciiSpace(c: char)
    requires c as int < 128
    ensures IsSpace(c) <==> c as int == 32 || 9 <= c as int <= 13
  {
  }

  ghost predicate AllSpace(s: string) {
    forall i :: 0 <= i < |s| ==> IsSpace(s[i])
  }

  lemma {:induction false} TrimLeftDrops(indent: string, s: string)
    requires AllSpace(indent) && (s == "" || !IsSpace(s[0]))
    ensures TrimLeft(indent + s) == s
  {
    if indent == "" {
      assert indent + s == s;
    } else {
      assert (indent + s)[1..] == indent[1..] + s;
      TrimLeftDrops(indent[1..], s);
    }
  }

  lemma {:induction false} TrimRightDrops(s: string, tail: string)
    requires AllSpace(tail) && (s == "" || !IsSpace(s[|s| - 1]))
    ensures TrimRight(s + tail) == s
  {
    if tail == "" {
      assert s + tail == s;
    } else {
      assert (s + tail)[..|s + tail| - 1] == s + tail[..|tail| - 1];
      TrimRightDrops(s, tail[..|tail| - 1]);
    }
  }

  /** What is between white space and neither starts nor ends with any is what trimming leaves. */
  lemma TrimSpaceDrops(indent: string, s: string, tail: string)
    requires AllSpace(indent) && AllSpace(tail) && s != "" && !IsSpace(s[0]) && !IsSpace(s[|s| - 1])
    ensures TrimSpace(indent + s + tail) == s
  {
    assert indent + s + tail == indent + (s + tail);
    TrimLeftDrops(indent, s + tail);
    TrimRightDrops(s, tail);
  }

  lemma {:induction false} TrimLeftSplits(s: string) returns (indent: string)
    ensures AllSpace(indent) && s == indent + TrimLeft(s)
    ensures TrimLeft(s) == "" || !IsSpace(TrimLeft(s)[0])
  {
    if s != "" && IsSpace(s[0]) {
      var rest := TrimLeftSplits(s[1..]);
      indent := [s[0]] + rest;
      assert s == [s[0]] + s[1..];
    } else {
      indent := "";
    }
  }

  lemma {:induction false} TrimRightSplits(s: string) returns (tail: string)
    ensures AllSpace(tail) && s == TrimRight(s) + tail
    ensures TrimRight(s) == "" || !IsSpace(TrimRight(s)[|TrimRight(s)| - 1])
  {
    if s != "" && IsSpace(s[|s| - 1]) {
      var rest := TrimRightSplits(s[..|s| - 1]);
      tail := rest + [s[|s| - 1]];
      assert s == s[..|s| - 1] + [s[|s| - 1]];
    } else {
      tail := "";
    }
  }

  /** Trimming cuts white space only and leaves none at either end. */
  lemma TrimSpaceIsExact(s: string) returns (indent: string, tail: string)
    ensures AllSpace(indent) && AllSpace(tail) && s == indent + TrimSpace(s) + tail
    ensures TrimSpace(s) != "" ==> !IsSpace(TrimSpace(s)[0]) && !IsSpace(TrimSpace(s)[|TrimSpace(s)| - 1])
  {
    indent := TrimLeftSplits(s);
    tail := TrimRightSplits(TrimLeft(s));
    if TrimSpace(s) != "" {
      assert TrimLeft(s)[0] == TrimSpace(s)[0];
    }
  }

  /** A part is contained exactly if something stands before and after it. */
  lemma ContainsExactly(s: string, part: string)
    ensures Contains(s, part) <==> exists before: string, after: string :: s == before + part + after
  {
    if Contains(s, part) {
      var i: nat :| i <= |s| && OccursAt(s, part, i);
      assert s == s[..i] + part + s[i + |part|..];
    }
    forall before: string, after: string | s == before + part + after ensures Contains(s, part) {
      assert OccursAt(s, part, |before|);
    }
  }

  function LowerChar(c: char): char {
    if 'A' <= c <= 'Z' then c - 'A' + 'a' else c
  }

  function ToLower(s: string): (r: string)
    ensures |r| == |s| && forall i :: 0 <= i < |s| ==> r[i] == LowerChar(s[i])
  {
    Apply(LowerChar, s)
  }

  /** `strings.Split(s, "/")` */
  function Split(s: string): (parts: seq<string>)
    ensures |parts| >= 1
  {
    if s == "" then [""]
    else
      var rest := Split(s[1..]);
      if s[0] == '/' then [""] + rest else [[s[0]] + rest[0]] + rest[1..]
  }

  lemma {:induction false} SplitWithoutSlash(s: string)
    ensures Split(s) == [s] <==> '/' !in s
    ensures |Split(s)| == 1 <==> '/' !in s
  {
    if s != "" {
      SplitWithoutSlash(s[1..]);
      assert s == [s[0]] + s[1..];
    }
  }

  lemma ConsEqual<T>(x: T, xs: seq<T>, y: T, ys: seq<T>)
    ensures [x] + xs == [y] + ys <==> x == y && xs == ys
  {
    assert ([x] + xs)[0] == x && ([y] + ys)[0] == y;
    assert ([x] + xs)[1..] == xs && ([y] + ys)[1..] == ys;
  }

  /** Two parts are exactly what is before and after a single slash. */
  lemma {:induction false} SplitInTwo(s: string, a: string, b: string)
    ensures Split(s) == [a, b] <==> s == a + "/" + b && '/' !in a && '/' !in b
  {
    if s == "" {
      assert |a + "/" + b| > 0;
    } else {
      var rest := Split(s[1..]);
      assert s == [s[0]] + s[1..];
      SplitWithoutSlash(s[1..]);
      if s[0] == '/' {
        ConsEqual("", rest, a, [b]);
        assert [a, b] == [a] + [b];
        assert Split(s) == [a, b] <==> a == "" && s[1..] == b && '/' !in b;
        if a != "" {
          assert s == a + "/" + b ==> s[0] == a[0];
        } else {
          assert a + "/" + b == ['/'] + b;
          ConsEqual(s[0], s[1..], '/', b);
        }
      } else if a != "" {
        SplitInTwo(s[1..], a[1..], b);
        assert a == [a[0]] + a[1..];
        assert (a + "/" + b)[1..] == a[1..] + "/" + b;
        assert s == a + "/" + b <==> s[0] == a[0] && s[1..] == a[1..] + "/" + b;
        assert rest == [rest[0]] + rest[1..];
        ConsEqual(rest[0], rest[1..], a[1..], [b]);
        ConsEqual(s[0], rest[0], a[0], a[1..]);
        ConsEqual([s[0]] + rest[0], rest[1..], a, [b]);
        assert [a, b] == [a] + [b] && [a[1..], b] == [a[1..]] + [b];
      } else {
        assert (a + "/" + b)[0] == '/';
        assert |Split(s)[0]| == 1 + |rest[0]| && [a, b][0] == "";
      }
    }
  }
}
