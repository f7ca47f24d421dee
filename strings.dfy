/** The handful of Python `str` operations the translator relies on, written
    out over `seq<char>`: whitespace as `str.isspace` sees it, `strip`,
    `find`, `rfind`, `split` on one separator, `endswith`, substring `in`,
    ASCII lower-casing and the clamping slices `s[:k]` and `s[k:]`. */
module PyStr {

  /** The characters for which Python's `str.isspace()` holds, and hence
      the ones `str.strip()` (with no argument) removes. */
  predicate IsSpace(c: char)
  {
    || ('\t' <= c <= '\r')           // tab, line feed, vertical tab, form feed, carriage return
    || ('\U{1c}' <= c <= '\U{1f}')   // file, group, record and unit separators
    || c == ' '
    || c == '\U{85}' || c == '\U{a0}' || c == '\U{1680}'
    || ('\U{2000}' <= c <= '\U{200a}')
    || c == '\U{2028}' || c == '\U{2029}' || c == '\U{202f}' || c == '\U{205f}' || c == '\U{3000}'
  }

  /** Every character of `s` is whitespace (true of the empty string). */
  predicate AllSpace(s: string)
  {
    forall i :: 0 <= i < |s| ==> IsSpace(s[i])
  }

  /** No character of `s` is `c` (`c not in s`). */
  predicate Lacks(s: string, c: char)
  {
    forall j :: 0 <= j < |s| ==> s[j] != c
  }

  /** The number of whitespace characters `s` starts with. */
  function LeadingSpace(s: string): (n: nat)
    ensures n <= |s|
  {
    if |s| > 0 && IsSpace(s[0]) then 1 + LeadingSpace(s[1..]) else 0
  }

  /** The number of whitespace characters `s` ends with. */
  function TrailingSpace(s: string): (n: nat)
    ensures n <= |s|
  {
    if |s| > 0 && IsSpace(s[|s| - 1]) then 1 + TrailingSpace(s[..|s| - 1]) else 0
  }

  /** `s.lstrip()`. */
  function LStrip(s: string): string
  {
    s[LeadingSpace(s)..]
  }

  /** `s.rstrip()`. */
  function RStrip(s: string): string
  {
    s[..|s| - TrailingSpace(s)]
  }

  /** `s.strip()`. */
  function Strip(s: string): string
  {
    RStrip(LStrip(s))
  }

  /** `LeadingSpace` counts exactly the leading whitespace: the characters
      before it are all whitespace and the one after it is not. */
  lemma {:induction false} LeadingSpaceExact(s: string)
    ensures AllSpace(s[..LeadingSpace(s)])
    ensures LeadingSpace(s) < |s| ==> !IsSpace(s[LeadingSpace(s)])
  {
    if |s| > 0 && IsSpace(s[0]) {
      LeadingSpaceExact(s[1..]);
      assert s[..LeadingSpace(s)] == [s[0]] + s[1..][..LeadingSpace(s[1..])];
    }
  }

  /** `TrailingSpace` counts exactly the trailing whitespace. */
  lemma {:induction false} TrailingSpaceExact(s: string)
    ensures AllSpace(s[|s| - TrailingSpace(s)..])
    ensures TrailingSpace(s) < |s| ==> !IsSpace(s[|s| - TrailingSpace(s) - 1])
  {
    if |s| > 0 && IsSpace(s[|s| - 1]) {
      var t := s[..|s| - 1];
      TrailingSpaceExact(t);
      assert s[|s| - TrailingSpace(s)..] == t[|t| - TrailingSpace(t)..] + [s[|s| - 1]];
    }
  }

  /** `s.strip()` is the slice of `s` that starts after the leading
      whitespace. */
  lemma {:induction false} StripSlice(s: string)
    ensures LeadingSpace(s) + |Strip(s)| <= |s|
    ensures Strip(s) == s[LeadingSpace(s)..LeadingSpace(s) + |Strip(s)|]
  {
  }

  /** `s.strip()` is empty exactly when `s` is all whitespace. */
  lemma {:induction false} StripEmpty(s: string)
    ensures Strip(s) == [] <==> AllSpace(s)
  {
    if Strip(s) == [] {
      StripEmptyAllSpace(s);
    }
    if AllSpace(s) {
      LeadingSpaceExact(s);
      assert LeadingSpace(s) == |s|;
    }
  }

  lemma {:induction false} StripEmptyAllSpace(s: string)
    requires Strip(s) == []
    ensures AllSpace(s)
  {
    var a := LeadingSpace(s);
    var l := s[a..];
    assert Strip(s) == l[..|l| - TrailingSpace(l)];
    assert TrailingSpace(l) == |l|;
    LeadingSpaceExact(s);
    TrailingSpaceExact(l);
    assert l[0..] == l;
    SliceSplit(s, a);
    AllSpaceConcat(s[..a], l);
  }

  /** A string is its part before index `k` followed by the rest. */
  lemma {:induction false} SliceSplit(s: string, k: nat)
    requires k <= |s|
    ensures s == s[..k] + s[k..]
  {
  }

  /** A non-empty `s.strip()` neither starts nor ends with whitespace. */
  lemma {:induction false} StripEnds(s: string)
    ensures Strip(s) != [] ==> !IsSpace(Strip(s)[0]) && !IsSpace(Strip(s)[|Strip(s)| - 1])
  {
    var a := LeadingSpace(s);
    var l := s[a..];
    var r := Strip(s);
    LeadingSpaceExact(s);
    TrailingSpaceExact(l);
    if r != [] {
      assert r[0] == s[a];
      assert r[|r| - 1] == l[|l| - TrailingSpace(l) - 1];
    }
  }

  /** What `s.strip()` removes is whitespace, at both ends: the
      characters before and after the slice it keeps are all whitespace. */
  lemma {:induction false} StripRemovesSpace(s: string)
    ensures LeadingSpace(s) + |Strip(s)| <= |s|
    ensures AllSpace(s[..LeadingSpace(s)]) && AllSpace(s[LeadingSpace(s) + |Strip(s)|..])
  {
    var l := LStrip(s);
    LeadingSpaceExact(s);
    TrailingSpaceExact(l);
    assert s[LeadingSpace(s) + |Strip(s)|..] == l[|l| - TrailingSpace(l)..];
  }

  /** The facts above together: `s.strip()` is the slice of `s` between
      its leading and its trailing whitespace, which is all it removes; it
      is empty exactly when `s` is all whitespace, and otherwise starts and
      ends with non-whitespace. */
  lemma {:induction false} StripShape(s: string)
    ensures LeadingSpace(s) + |Strip(s)| <= |s|
    ensures Strip(s) == s[LeadingSpace(s)..LeadingSpace(s) + |Strip(s)|]
    ensures AllSpace(s[..LeadingSpace(s)]) && AllSpace(s[LeadingSpace(s) + |Strip(s)|..])
    ensures Strip(s) == [] <==> AllSpace(s)
    ensures Strip(s) != [] ==> !IsSpace(Strip(s)[0]) && !IsSpace(Strip(s)[|Strip(s)| - 1])
  {
    StripSlice(s);
    StripRemovesSpace(s);
    StripEmpty(s);
    StripEnds(s);
  }

  lemma {:induction false} AllSpaceConcat(x: string, y: string)
    requires AllSpace(x) && AllSpace(y)
    ensures AllSpace(x + y)
  {
    forall i | 0 <= i < |x + y| ensures IsSpace((x + y)[i]) {
      if i >= |x| {
        assert (x + y)[i] == y[i - |x|];
      }
    }
  }

  /** When `s.strip()` is not empty, it is a prefix of `s` exactly when `s`
      does not start with whitespace. */
  lemma {:induction false} StripPrefixIff(s: string)
    requires Strip(s) != []
    ensures |s| > 0 && |Strip(s)| <= |s|
    ensures s[..|Strip(s)|] == Strip(s) <==> !IsSpace(s[0])
  {
    StripSlice(s);
    StripEnds(s);
    if !IsSpace(s[0]) {
      assert LeadingSpace(s) == 0;
    } else {
      assert s[..|Strip(s)|][0] == s[0];
    }
  }

  /** Stripping twice is stripping once. */
  lemma {:induction false} StripIdempotent(s: string)
    ensures Strip(Strip(s)) == Strip(s)
  {
    var r := Strip(s);
    StripShape(s);
    if r != [] {
      assert LeadingSpace(r) == 0;
      assert TrailingSpace(r) == 0;
    }
  }

  /** `s.find(c)`: the index of the first `c` in `s`, or -1 when there is none. */
  function Find(s: string, c: char): (r: int)
    ensures -1 <= r < |s|
    ensures r == -1 ==> Lacks(s, c)
    ensures r >= 0 ==> s[r] == c
  {
    if |s| == 0 then -1
    else if s[0] == c then 0
    else
      var k := Find(s[1..], c);
      if k < 0 then -1 else k + 1
  }

  /** No `c` comes before the index `Find` gives. */
  lemma {:induction false} FindFirst(s: string, c: char)
    ensures forall j :: 0 <= j < Find(s, c) ==> s[j] != c
  {
    if |s| > 0 && s[0] != c {
      FindFirst(s[1..], c);
      forall j | 0 < j < Find(s, c) ensures s[j] != c {
        assert s[j] == s[1..][j - 1];
      }
    }
  }

  /** `s.rfind(c)`: the index of the last `c` in `s`, or -1 when there is none. */
  function RFind(s: string, c: char): (r: int)
    ensures -1 <= r < |s|
    ensures r == -1 ==> Lacks(s, c)
    ensures r >= 0 ==> s[r] == c && forall j :: r < j < |s| ==> s[j] != c
  {
    if |s| == 0 then -1
    else if s[|s| - 1] == c then |s| - 1
    else
      var t := s[..|s| - 1];
      var k := RFind(t, c);
      assert s == t + [s[|s| - 1]];
      k
  }

  /** `sep.join(lines)`. */
  function Join(lines: seq<string>, sep: char): string
  {
    if |lines| == 0 then []
    else if |lines| == 1 then lines[0]
    else lines[0] + [sep] + Join(lines[1..], sep)
  }

  /** `s.split(sep)` for a one-character separator. */
  function Split(s: string, sep: char): (lines: seq<string>)
    ensures |lines| >= 1
    decreases |s|
  {
    var k := Find(s, sep);
    if k < 0 then [s] else [s[..k]] + Split(s[k + 1..], sep)
  }

  /** Where `sep` first occurs, at `k`, `split` cuts `s` in front of it
      and goes on after it. */
  lemma {:induction false} SplitAt(s: string, sep: char, k: nat)
    requires k == Find(s, sep)
    ensures Split(s, sep) == [s[..k]] + Split(s[k + 1..], sep)
  {
  }

  /** A string is its part before index `k`, the character at `k`, and its
      part after `k`. */
  lemma {:induction false} SliceAround(s: string, k: nat)
    requires k < |s|
    ensures s == s[..k] + [s[k]] + s[k + 1..]
  {
  }

  /** The pieces `s.split(sep)` gives contain no `sep` ... */
  lemma {:induction false} SplitLacks(s: string, sep: char)
    ensures forall i :: 0 <= i < |Split(s, sep)| ==> Lacks(Split(s, sep)[i], sep)
    decreases |s|
  {
    var k := Find(s, sep);
    if k >= 0 {
      var lines, head, rest := Split(s, sep), s[..k], Split(s[k + 1..], sep);
      SplitAt(s, sep, k);
      SplitLacks(s[k + 1..], sep);
      FindFirst(s, sep);
      forall i | 0 <= i < |lines| ensures Lacks(lines[i], sep) {
        if i > 0 {
          assert lines[i] == rest[i - 1];
        } else {
          forall j | 0 <= j < |head| ensures head[j] != sep {
            assert head[j] == s[j];
          }
        }
      }
    }
  }

  /** ... and joined back with `sep` they give `s` again. */
  lemma {:induction false} JoinSplit(s: string, sep: char)
    ensures Join(Split(s, sep), sep) == s
    decreases |s|
  {
    var k := Find(s, sep);
    if k >= 0 {
      var rest := Split(s[k + 1..], sep);
      SplitAt(s, sep, k);
      SliceAround(s, k);
      JoinSplit(s[k + 1..], sep);
      JoinCons(s[..k], rest, sep);
    }
  }

  /** Joining puts `sep` between the first piece and the join of the rest. */
  lemma {:induction false} JoinCons(head: string, rest: seq<string>, sep: char)
    requires |rest| >= 1
    ensures Join([head] + rest, sep) == head + [sep] + Join(rest, sep)
  {
    assert ([head] + rest)[1..] == rest;
  }

  /** Both facts together. */
  lemma {:induction false} SplitJoin(s: string, sep: char)
    ensures forall i :: 0 <= i < |Split(s, sep)| ==> Lacks(Split(s, sep)[i], sep)
    ensures Join(Split(s, sep), sep) == s
  {
    SplitLacks(s, sep);
    JoinSplit(s, sep);
  }

  /** `s.endswith(suffix)`. */
  predicate EndsWith(s: string, suffix: string)
  {
    |suffix| <= |s| && s[|s| - |suffix|..] == suffix
  }

  /** `sub` occurs in `s` starting at index `i`. */
  ghost predicate OccursAt(s: string, sub: string, i: int)
  {
    0 <= i && i + |sub| <= |s| && s[i..i + |sub|] == sub
  }

  /** `sub in s`, searched from the left: true exactly when `sub` occurs
      in `s` at some index. */
  function Contains(s: string, sub: string): (r: bool)
    ensures r <==> exists i :: OccursAt(s, sub, i)
    decreases |s|
  {
    if |sub| > |s| then
      assert forall i :: !OccursAt(s, sub, i);
      false
    else if s[..|sub|] == sub then
      assert OccursAt(s, sub, 0);
      true
    else
      var r := Contains(s[1..], sub);
      assert r ==> exists i :: OccursAt(s, sub, i) by {
        if r {
          var i :| OccursAt(s[1..], sub, i);
          assert s[i + 1..i + 1 + |sub|] == s[1..][i..i + |sub|];
          assert OccursAt(s, sub, i + 1);
        }
      }
      assert (exists i :: OccursAt(s, sub, i)) ==> r by {
        if exists i :: OccursAt(s, sub, i) {
          var i :| OccursAt(s, sub, i);
          assert i != 0;
          assert s[1..][i - 1..i - 1 + |sub|] == s[i..i + |sub|];
          assert OccursAt(s[1..], sub, i - 1);
        }
      }
      r
  }

  /** ASCII lower-casing of one character. */
  function LowerChar(c: char): char
  {
    if 'A' <= c <= 'Z' then (c as int - 'A' as int + 'a' as int) as char else c
  }

  /** `s.lower()` restricted to ASCII letters. */
  function Lower(s: string): (r: string)
    ensures |r| == |s|
  {
    seq(|s|, i requires 0 <= i < |s| => LowerChar(s[i]))
  }

  /** Python's `s[:k]` for `k >= 0`: clamps `k` to the length of `s`. */
  function SliceTo(s: string, k: nat): (r: string)
    ensures |r| == if k <= |s| then k else |s|
  {
    if k <= |s| then s[..k] else s
  }

  /** Python's `s[k:]` for `k >= 0`: empty once `k` passes the end. */
  function SliceFrom(s: string, k: nat): (r: string)
    ensures |r| == if k <= |s| then |s| - k else 0
  {
    if k <= |s| then s[k..] else []
  }
}
