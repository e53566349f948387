/** The handful of Python string operations the pipeline relies on:
    `str.isspace` (also the `\s` class of `re` on str patterns), `str.strip()`,
    `str.replace(lit, '')`, `re.sub(r'\s+', ' ', s)`, `str.split(sep)` and
    `sep.join(parts)`, each as a function, with lemmas stating the properties
    of it that the pipeline relies on. */
module Text {

  type String = seq<char>

  /** The characters Python's `str.isspace()` accepts; `re`'s `\s` and the
      argument-less `str.strip()` use the same set. */
  predicate IsSpace(c: char) {
    c == ' ' || ('\t' <= c <= '\r') || ('\U{1C}' <= c <= '\U{1F}')
    || c == '\U{85}' || c == '\U{A0}' || c == '\U{1680}'
    || ('\U{2000}' <= c <= '\U{200A}') || c == '\U{2028}' || c == '\U{2029}'
    || c == '\U{202F}' || c == '\U{205F}' || c == '\U{3000}'
  }

  predicate AllSpace(s: String) {
    forall k :: 0 <= k < |s| ==> IsSpace(s[k])
  }

  /** No whitespace at either end: what `strip()` guarantees. */
  predicate Bare(s: String) {
    s == [] || (!IsSpace(s[0]) && !IsSpace(s[|s| - 1]))
  }

  /** Inside `s`, every whitespace character is a plain space and is not
      followed by another whitespace character. */
  predicate SingleSpaced(s: String) {
    forall k :: 0 <= k < |s| && IsSpace(s[k]) ==>
      s[k] == ' ' && (k + 1 < |s| ==> !IsSpace(s[k + 1]))
  }

  /** The characters of `s` that are not whitespace, in order. */
  function NonSpace(s: String): (r: String)
    ensures |r| <= |s|
  {
    if s == [] then []
    else (if IsSpace(s[0]) then [] else [s[0]]) + NonSpace(s[1..])
  }

  /** `pat` occurs somewhere in `s` (Python's `pat in s`). */
  predicate Contains(s: String, pat: String)
    decreases |s|
  {
    pat <= s || (|s| > 0 && Contains(s[1..], pat))
  }

  // ---------------------------------------------------------------- strip

  /** The number of leading whitespace characters of `s`. */
  function Lead(s: String): (n: nat)
    ensures n <= |s|
    ensures forall k :: 0 <= k < n ==> IsSpace(s[k])
    ensures n < |s| ==> !IsSpace(s[n])
    decreases |s|
  {
    if |s| > 0 && IsSpace(s[0]) then 1 + Lead(s[1..]) else 0
  }

  /** The end of `s` once its trailing whitespace is cut off. */
  function Last(s: String): (n: nat)
    ensures n <= |s|
    ensures forall k :: n <= k < |s| ==> IsSpace(s[k])
    ensures n > 0 ==> !IsSpace(s[n - 1])
    decreases |s|
  {
    if |s| > 0 && IsSpace(s[|s| - 1]) then Last(s[..|s| - 1]) else |s|
  }

  /** `s.strip()`: what lies between the leading and the trailing
      whitespace; nothing when `s` is blank. */
  function Strip(s: String): (r: String)
    ensures Bare(r)
    ensures Lead(s) == |s| ==> r == []
    ensures Lead(s) < |s| ==> Lead(s) < Last(s) && r == s[Lead(s)..Last(s)]
  {
    if Lead(s) == |s| then [] else s[Lead(s)..Last(s)]
  }

  /** `s.strip()` is empty exactly when `s` is blank, which is the test
      `if piece.strip()` and `if word` make. */
  lemma StripEmptyIffBlank(s: String)
    ensures Strip(s) == [] <==> AllSpace(s)
  {
  }

  /** `s` holds a character other than whitespace. */
  predicate HasText(s: String)
    decreases |s|
  {
    |s| > 0 && (!IsSpace(s[0]) || HasText(s[1..]))
  }

  /** `if s.strip()` is the test HasText. */
  lemma {:induction false} HasTextIffStrip(s: String)
    ensures HasText(s) <==> Strip(s) != []
    decreases |s|
  {
    StripEmptyIffBlank(s);
    if |s| > 0 {
      HasTextIffStrip(s[1..]);
      StripEmptyIffBlank(s[1..]);
      assert AllSpace(s) <==> IsSpace(s[0]) && AllSpace(s[1..]) by {
        assert forall k :: 0 < k < |s| ==> s[k] == s[1..][k - 1];
      }
    }
  }

  /** A string already without whitespace at its ends is its own strip. */
  lemma StripBare(s: String)
    requires Bare(s)
    ensures Strip(s) == s
  {
    if s != [] {
      assert Lead(s) == 0;
      assert Last(s) == |s|;
    }
  }

  /** `strip()` is idempotent. */
  lemma StripIdempotent(s: String)
    ensures Strip(Strip(s)) == Strip(s)
  {
    StripBare(Strip(s));
  }

  /** Stripping keeps exactly the non-whitespace characters, in order. */
  lemma StripKeepsNonSpace(s: String)
    ensures NonSpace(Strip(s)) == NonSpace(s)
  {
    var i, j := Lead(s), Last(s);
    if i == |s| {
      NonSpaceBlank(s);
    } else {
      assert s == s[..i] + s[i..j] + s[j..];
      NonSpaceConcat(s[..i] + s[i..j], s[j..]);
      NonSpaceConcat(s[..i], s[i..j]);
      NonSpaceBlank(s[..i]);
      NonSpaceBlank(s[j..]);
    }
  }

  lemma {:induction false} NonSpaceConcat(a: String, b: String)
    ensures NonSpace(a + b) == NonSpace(a) + NonSpace(b)
    decreases |a|
  {
    if a != [] {
      assert (a + b)[0] == a[0];
      assert (a + b)[1..] == a[1..] + b;
      NonSpaceConcat(a[1..], b);
    } else {
      assert a + b == b;
    }
  }

  lemma {:induction false} NonSpaceBlank(s: String)
    requires AllSpace(s)
    ensures NonSpace(s) == []
    decreases |s|
  {
    if s != [] { NonSpaceBlank(s[1..]); }
  }

  /** Every character of `s.strip()` is a character of `s`. */
  lemma StripChars(s: String, x: char)
    requires x in Strip(s)
    ensures x in s
  {
    var k :| 0 <= k < |Strip(s)| && Strip(s)[k] == x;
    assert s[Lead(s) + k] == x;
  }

  // ----------------------------------------------------------- replace

  /** `s.replace(pat, '')`: one left-to-right scan that deletes each
      non-overlapping occurrence of `pat`. */
  function RemoveAll(s: String, pat: String): (r: String)
    requires |pat| > 0
    ensures |r| <= |s|
    decreases |s|
  {
    if s == [] then []
    else if pat <= s then RemoveAll(s[|pat|..], pat)
    else [s[0]] + RemoveAll(s[1..], pat)
  }

  /** Removing a one-character literal deletes every copy of it and keeps
      every other character with its multiplicity. */
  lemma {:induction false} RemoveCharComplete(s: String, c: char)
    ensures c !in RemoveAll(s, [c])
    ensures forall x :: x != c ==> multiset(RemoveAll(s, [c]))[x] == multiset(s)[x]
    decreases |s|
  {
    if s != [] {
      RemoveCharComplete(s[1..], c);
      assert s == [s[0]] + s[1..];
      if [c] <= s {
        assert s[1..] == s[|[c]|..];
      }
    }
  }

  /** The scan deletes only characters of `pat`: any other character keeps
      its count. */
  lemma {:induction false} RemoveKeepsOthers(s: String, pat: String, x: char)
    requires |pat| > 0 && x !in pat
    ensures multiset(RemoveAll(s, pat))[x] == multiset(s)[x]
    decreases |s|
  {
    if s != [] {
      if pat <= s {
        RemoveKeepsOthers(s[|pat|..], pat, x);
        assert s == s[..|pat|] + s[|pat|..];
        assert s[..|pat|] == pat;
        assert multiset(pat)[x] == 0;
      } else {
        RemoveKeepsOthers(s[1..], pat, x);
        assert s == [s[0]] + s[1..];
      }
    }
  }

  /** Only whole copies of `pat` are deleted: the input is the result plus
      `n` copies of `pat`, in length and in every character's count. */
  lemma {:induction false} RemoveWhole(s: String, pat: String) returns (n: nat)
    requires |pat| > 0
    ensures |s| == |RemoveAll(s, pat)| + n * |pat|
    ensures forall x :: multiset(s)[x] == multiset(RemoveAll(s, pat))[x] + n * multiset(pat)[x]
    decreases |s|
  {
    if s == [] {
      n := 0;
    } else if pat <= s {
      var m := RemoveWhole(s[|pat|..], pat);
      n := m + 1;
      assert n * |pat| == m * |pat| + |pat|;
      assert s == pat + s[|pat|..];
      forall x
        ensures multiset(s)[x] == multiset(RemoveAll(s, pat))[x] + n * multiset(pat)[x]
      {
        assert n * multiset(pat)[x] == m * multiset(pat)[x] + multiset(pat)[x];
      }
    } else {
      n := RemoveWhole(s[1..], pat);
      assert s == [s[0]] + s[1..];
    }
  }

  /** The characters that survive keep their order: the result of the scan
      is a subsequence of its input. */
  lemma {:induction false} RemoveKeepsOrder(s: String, pat: String)
    requires |pat| > 0
    ensures Subsequence(RemoveAll(s, pat), s)
    decreases |s|
  {
    if s != [] {
      if pat <= s {
        RemoveKeepsOrder(s[|pat|..], pat);
        SubsequenceDrop(RemoveAll(s[|pat|..], pat), s, |pat|);
      } else {
        RemoveKeepsOrder(s[1..], pat);
      }
    }
  }

  /** `a` is `b` with some characters deleted. */
  predicate Subsequence(a: String, b: String)
    decreases |b|
  {
    if a == [] then true
    else if b == [] then false
    else if a[0] == b[0] then Subsequence(a[1..], b[1..])
    else Subsequence(a, b[1..])
  }

  /** A subsequence of a suffix of `b` is a subsequence of `b`. */
  lemma {:induction false} SubsequenceDrop(a: String, b: String, n: nat)
    requires n <= |b| && Subsequence(a, b[n..])
    ensures Subsequence(a, b)
    decreases n
  {
    if n > 0 {
      assert b[1..][n - 1..] == b[n..];
      SubsequenceDrop(a, b[1..], n - 1);
      SubsequenceCons(a, b);
    }
  }

  /** A subsequence of `b[1..]` is a subsequence of `b`. */
  lemma {:induction false} SubsequenceCons(a: String, b: String)
    requires |b| > 0 && Subsequence(a, b[1..])
    ensures Subsequence(a, b)
    decreases |b|, 0
  {
    if a != [] && a[0] == b[0] {
      SubsequenceTail(a, b[1..]);
    }
  }

  /** Dropping the first character of a subsequence keeps it one. */
  lemma {:induction false} SubsequenceTail(a: String, c: String)
    requires a != [] && Subsequence(a, c)
    ensures Subsequence(a[1..], c)
    decreases |c|, 1
  {
    if a[0] == c[0] {
      SubsequenceCons(a[1..], c);
    } else {
      SubsequenceTail(a, c[1..]);
      SubsequenceCons(a[1..], c);
    }
  }

  /** Removing a literal that does not occur changes nothing. */
  lemma {:induction false} RemoveAbsent(s: String, pat: String)
    requires |pat| > 0 && !Contains(s, pat)
    ensures RemoveAll(s, pat) == s
    decreases |s|
  {
    if s != [] {
      RemoveAbsent(s[1..], pat);
    }
  }

  /** For a two-character literal `[a, b]` the single scan leaves no
      occurrence behind provided `s` never holds `a` twice in a row. */
  lemma {:induction false} RemovePairComplete(s: String, a: char, b: char)
    requires !Contains(s, [a, a])
    ensures !Contains(RemoveAll(s, [a, b]), [a, b])
    decreases |s|
  {
    if s != [] {
      var pat := [a, b];
      if pat <= s {
        ContainsSuffix(s, pat, 2);
        RemovePairComplete(s[2..], a, b);
      } else {
        ContainsSuffix(s, [a, a], 1);
        RemovePairComplete(s[1..], a, b);
        var t := RemoveAll(s[1..], pat);
        assert RemoveAll(s, pat) == [s[0]] + t;
        if |s| > 1 && s[0] == a {
          assert s[1] != b && s[1] != a;
          assert t == [s[1]] + RemoveAll(s[2..], pat);
        }
        assert ([s[0]] + t)[1..] == t;
      }
    }
  }

  /** An occurrence in a suffix is an occurrence in the whole string. */
  lemma {:induction false} ContainsSuffix(s: String, pat: String, n: nat)
    requires n <= |s|
    ensures Contains(s[n..], pat) ==> Contains(s, pat)
    decreases n
  {
    if n > 0 {
      assert s[1..][n - 1..] == s[n..];
      ContainsSuffix(s[1..], pat, n - 1);
    }
  }

  /** An occurrence in a window of `s` is an occurrence in `s`. */
  lemma {:induction false} ContainsWindow(s: String, pat: String, i: int, j: int)
    requires 0 <= i <= j <= |s|
    ensures Contains(s[i..j], pat) ==> Contains(s, pat)
  {
    assert s[i..][..j - i] == s[i..j];
    ContainsPrefix(s[i..], pat, j - i);
    ContainsSuffix(s, pat, i);
  }

  lemma {:induction false} ContainsPrefix(s: String, pat: String, n: nat)
    requires n <= |s|
    ensures Contains(s[..n], pat) ==> Contains(s, pat)
    decreases n
  {
    assert pat <= s[..n] ==> pat <= s;
    if n > 0 {
      assert s[..n][1..] == s[1..][..n - 1];
      ContainsPrefix(s[1..], pat, n - 1);
    }
  }

  // ----------------------------------------------- whitespace collapse

  /** `re.sub(r'\s+', ' ', s)`: every maximal run of whitespace becomes one
      space; the ends keep their kind. */
  function Collapse(s: String): (r: String)
    ensures SingleSpaced(r)
    ensures |r| == 0 <==> |s| == 0
    ensures |r| > 0 ==> (IsSpace(r[0]) <==> IsSpace(s[0]))
    ensures |r| > 0 ==> (IsSpace(r[|r| - 1]) <==> IsSpace(s[|s| - 1]))
    ensures |s| > 0 && !IsSpace(s[0]) ==> r[0] == s[0]
    decreases |s|
  {
    if s == [] then []
    else if IsSpace(s[0]) then
      var c := Collapse(s[Lead(s)..]);
      SingleSpacedCons(' ', c);
      [' '] + c
    else
      var c := Collapse(s[1..]);
      SingleSpacedCons(s[0], c);
      [s[0]] + c
  }

  lemma SingleSpacedCons(x: char, c: String)
    requires SingleSpaced(c) && (IsSpace(x) ==> x == ' ' && (c == [] || !IsSpace(c[0])))
    ensures SingleSpaced([x] + c)
  {
    forall k | 0 <= k < |[x] + c| && IsSpace(([x] + c)[k])
      ensures ([x] + c)[k] == ' ' && (k + 1 < |[x] + c| ==> !IsSpace(([x] + c)[k + 1]))
    {
      if k > 0 { assert ([x] + c)[k] == c[k - 1]; }
    }
  }

  /** Collapsing keeps every non-whitespace character, in order. */
  lemma {:induction false} CollapseKeepsNonSpace(s: String)
    ensures NonSpace(Collapse(s)) == NonSpace(s)
    decreases |s|
  {
    if s != [] {
      if IsSpace(s[0]) {
        var rest := s[Lead(s)..];
        assert s == s[..Lead(s)] + rest;
        NonSpaceConcat(s[..Lead(s)], rest);
        NonSpaceBlank(s[..Lead(s)]);
        CollapseKeepsNonSpace(rest);
        assert ([' '] + Collapse(rest))[1..] == Collapse(rest);
      } else {
        CollapseKeepsNonSpace(s[1..]);
        assert ([s[0]] + Collapse(s[1..]))[1..] == Collapse(s[1..]);
      }
    }
  }

  /** Any character of `Collapse(s)` other than a space is a character of `s`. */
  lemma {:induction false} CollapseChars(s: String, x: char)
    requires x in Collapse(s) && x != ' '
    ensures x in s
    decreases |s|
  {
    if IsSpace(s[0]) {
      var rest := s[Lead(s)..];
      assert x in Collapse(rest);
      CollapseChars(rest, x);
    } else if x != s[0] {
      assert x in Collapse(s[1..]);
      CollapseChars(s[1..], x);
    }
  }

  /** A string with no whitespace other than lone spaces collapses to itself. */
  lemma {:induction false} CollapseSingleSpaced(s: String)
    requires SingleSpaced(s)
    ensures Collapse(s) == s
    decreases |s|
  {
    if s != [] {
      SingleSpacedWindow(s, 1, |s|);
      CollapseSingleSpaced(s[1..]);
      if IsSpace(s[0]) {
        assert Lead(s) == 1 + Lead(s[1..]);
        assert Lead(s[1..]) == 0;
      }
      assert s == [s[0]] + s[1..];
    }
  }

  lemma SingleSpacedWindow(s: String, i: int, j: int)
    requires 0 <= i <= j <= |s| && SingleSpaced(s)
    ensures SingleSpaced(s[i..j])
  {
    forall k | 0 <= k < j - i && IsSpace(s[i..j][k])
      ensures s[i..j][k] == ' ' && (k + 1 < j - i ==> !IsSpace(s[i..j][k + 1]))
    {
      assert s[i..j][k] == s[i + k];
      if k + 1 < j - i { assert s[i..j][k + 1] == s[i + k + 1]; }
    }
  }

  /** Leading whitespace of `a + b` stops inside `a` when `a` has text. */
  lemma LeadConcat(a: String, b: String)
    requires Lead(a) < |a|
    ensures Lead(a + b) == Lead(a)
  {
    assert forall k :: 0 <= k < |a| ==> (a + b)[k] == a[k];
  }

  /** Collapsing splits at a point just after a non-whitespace character:
      the two sides are collapsed independently. */
  lemma {:induction false} CollapseAppend(x: String, z: String)
    requires x == [] || !IsSpace(x[|x| - 1])
    ensures Collapse(x + z) == Collapse(x) + Collapse(z)
    decreases |x|
  {
    if x == [] {
      assert x + z == z;
      assert Collapse(x) + Collapse(z) == Collapse(z);
    } else {
      var s := x + z;
      assert s[0] == x[0];
      if IsSpace(x[0]) {
        var n := Lead(x);
        assert n < |x| by {
          assert !IsSpace(x[|x| - 1]);
        }
        LeadConcat(x, z);
        var rest := x[n..];
        assert s[n..] == rest + z;
        assert rest[|rest| - 1] == x[|x| - 1];
        CollapseAppend(rest, z);
        assert Collapse(s) == [' '] + Collapse(rest + z);
        assert Collapse(x) == [' '] + Collapse(rest);
        ConsAssoc(' ', Collapse(rest), Collapse(z));
      } else {
        var rest := x[1..];
        assert s[1..] == rest + z;
        assert rest == [] || rest[|rest| - 1] == x[|x| - 1];
        CollapseAppend(rest, z);
        assert Collapse(s) == [x[0]] + Collapse(rest + z);
        assert Collapse(x) == [x[0]] + Collapse(rest);
        ConsAssoc(x[0], Collapse(rest), Collapse(z));
      }
    }
  }

  lemma Assoc(a: String, b: String, c: String)
    ensures (a + b) + c == a + (b + c)
  {
  }

  lemma ConsAssoc(c: char, a: String, b: String)
    ensures [c] + (a + b) == ([c] + a) + b
  {
  }

  /** A whitespace run of any kind and length that ends just before a
      non-whitespace character (or the end) becomes one plain space. */
  lemma CollapseRun(w: String, y: String)
    requires |w| > 0 && AllSpace(w) && (y == [] || !IsSpace(y[0]))
    ensures Collapse(w + y) == [' '] + Collapse(y)
  {
    var s := w + y;
    assert Lead(s) == |w| by {
      assert forall k :: 0 <= k < |w| ==> s[k] == w[k];
      if |w| < |s| { assert s[|w|] == y[0]; }
    }
    assert s[|w|..] == y;
  }

  /** A non-whitespace character collapses to itself. */
  lemma CollapseChar(c: char)
    requires !IsSpace(c)
    ensures Collapse([c]) == [c]
  {
    assert [c][1..] == [];
  }

  /** Two words with a whitespace run between them come out of the
      collapse-and-strip step as the words with one space between. */
  lemma SqueezeWords(x: String, w: String, y: String)
    requires x != [] && Bare(x) && SingleSpaced(x)
    requires y != [] && Bare(y) && SingleSpaced(y)
    requires |w| > 0 && AllSpace(w)
    ensures Squeeze(x + w + y) == x + " " + y
  {
    Assoc(x, w, y);
    CollapseAppend(x, w + y);
    CollapseRun(w, y);
    CollapseSingleSpaced(x);
    CollapseSingleSpaced(y);
    Assoc(x, " ", y);
    var r := x + " " + y;
    assert Collapse(x + w + y) == r;
    assert r[0] == x[0] && r[|r| - 1] == y[|y| - 1];
    StripBare(r);
  }

  /** `"a \t b"` cleans to `"a b"`. */
  lemma SqueezeExample()
    ensures Squeeze("a \t b") == "a b"
  {
    assert "a \t b" == "a" + " \t " + "b";
    SqueezeWords("a", " \t ", "b");
  }

  /** The tail of `clean_text`: `re.sub(r'\s+', ' ', s).strip()`. */
  function Squeeze(s: String): (r: String)
    ensures Bare(r) && SingleSpaced(r)
  {
    var c := Collapse(s);
    if Lead(c) < |c| then SingleSpacedWindow(c, Lead(c), Last(c)); Strip(c)
    else Strip(c)
  }

  /** Squeezing twice squeezes once. */
  lemma SqueezeIdempotent(s: String)
    ensures Squeeze(Squeeze(s)) == Squeeze(s)
  {
    var t := Squeeze(s);
    CollapseSingleSpaced(t);
    StripBare(t);
  }

  /** Squeezing keeps exactly the non-whitespace characters, in order. */
  lemma SqueezeKeepsNonSpace(s: String)
    ensures NonSpace(Squeeze(s)) == NonSpace(s)
  {
    CollapseKeepsNonSpace(s);
    StripKeepsNonSpace(Collapse(s));
  }

  /** A character other than a space in `Squeeze(s)` was already in `s`. */
  lemma SqueezeChars(s: String, x: char)
    ensures x in Squeeze(s) && x != ' ' ==> x in s
  {
    if x in Squeeze(s) && x != ' ' {
      StripChars(Collapse(s), x);
      CollapseChars(s, x);
    }
  }

  /** Squeezing creates no new occurrence of two adjacent non-whitespace
      characters. */
  lemma SqueezeKeepsAbsent(s: String, a: char, b: char)
    requires !IsSpace(a) && !IsSpace(b)
    ensures !Contains(s, [a, b]) ==> !Contains(Squeeze(s), [a, b])
  {
    CollapseKeepsAbsent(s, a, b);
    var c := Collapse(s);
    if Lead(c) < |c| {
      ContainsWindow(c, [a, b], Lead(c), Last(c));
    }
  }

  lemma {:induction false} CollapseKeepsAbsent(s: String, a: char, b: char)
    requires !IsSpace(a) && !IsSpace(b)
    ensures !Contains(s, [a, b]) ==> !Contains(Collapse(s), [a, b])
    decreases |s|
  {
    if s != [] && !Contains(s, [a, b]) {
      if IsSpace(s[0]) {
        ContainsSuffix(s, [a, b], Lead(s));
        CollapseKeepsAbsent(s[Lead(s)..], a, b);
        assert ([' '] + Collapse(s[Lead(s)..]))[1..] == Collapse(s[Lead(s)..]);
      } else {
        ContainsSuffix(s, [a, b], 1);
        CollapseKeepsAbsent(s[1..], a, b);
        var t := Collapse(s[1..]);
        assert ([s[0]] + t)[1..] == t;
        assert |t| > 0 && t[0] == b ==> |s| > 1 && s[1] == t[0];
      }
    }
  }

  /** A character that does not occur is not a one-character occurrence. */
  lemma {:induction false} AbsentChar(s: String, c: char)
    ensures c !in s ==> !Contains(s, [c])
    decreases |s|
  {
    if s != [] {
      AbsentChar(s[1..], c);
      assert [c] <= s ==> s[0] == c;
      assert c !in s ==> c !in s[1..];
    }
  }

  /** Dropping whitespace leaves every other character's count alone. */
  lemma {:induction false} NonSpaceCounts(s: String, x: char)
    requires !IsSpace(x)
    ensures multiset(NonSpace(s))[x] == multiset(s)[x]
    decreases |s|
  {
    if s != [] {
      NonSpaceCounts(s[1..], x);
      assert s == [s[0]] + s[1..];
    }
  }

  // ------------------------------------------------------- split / join

  /** `sep.join(parts)`. */
  function Join(parts: seq<String>, sep: String): (r: String)
    ensures parts == [] ==> r == []
    ensures |parts| == 1 ==> r == parts[0]
    ensures |parts| > 0 ==> parts[0] <= r
    ensures |parts| > 1 ==> parts[0] + sep <= r
    decreases |parts|
  {
    if parts == [] then []
    else if |parts| == 1 then parts[0]
    else parts[0] + sep + Join(parts[1..], sep)
  }

  /** Appending a part appends the separator and the part. */
  lemma {:induction false} JoinSnoc(parts: seq<String>, p: String, sep: String)
    requires |parts| > 0
    ensures Join(parts + [p], sep) == Join(parts, sep) + sep + p
    decreases |parts|
  {
    if |parts| > 1 {
      assert (parts + [p])[1..] == parts[1..] + [p];
      JoinSnoc(parts[1..], p, sep);
    }
  }

  /** `s.split(sep)`: cut at each leftmost non-overlapping occurrence. */
  function Split(s: String, sep: String): (r: seq<String>)
    requires |sep| > 0
    ensures |r| >= 1
    ensures r[0] <= s
    decreases |s|
  {
    if s == [] then [[]]
    else if sep <= s then [[]] + Split(s[|sep|..], sep)
    else
      var rest := Split(s[1..], sep);
      [[s[0]] + rest[0]] + rest[1..]
  }

  /** The first cut falls at the leftmost occurrence of `sep`: the first
      piece holds no occurrence starting inside it (SplitFirstLeftmost), is
      followed by `sep` when there are more pieces, and the rest of the
      pieces are the split of what follows that `sep`; with one piece, the
      piece is `s`. */
  lemma {:induction false} SplitFirstCut(s: String, sep: String)
    requires |sep| > 0
    ensures |Split(s, sep)| > 1 ==>
      (Split(s, sep)[0] + sep <= s && Split(s, sep)[1..] == Split(s[|Split(s, sep)[0]| + |sep|..], sep))
    ensures |Split(s, sep)| == 1 ==> Split(s, sep)[0] == s
    decreases |s|
  {
    if s == [] {
    } else if sep <= s {
      var after := Split(s[|sep|..], sep);
      assert Split(s, sep) == [[]] + after;
      assert ([[]] + after)[1..] == after;
      assert [] + sep == sep;
    } else {
      var rest := Split(s[1..], sep);
      SplitFirstCut(s[1..], sep);
      var first := [s[0]] + rest[0];
      var r := Split(s, sep);
      assert r == [first] + rest[1..];
      assert r[0] == first && r[1..] == rest[1..];
      if |rest| > 1 {
        var t := s[1..];
        assert rest[0] + sep <= t;
        assert t[|rest[0]| + |sep|..] == s[|first| + |sep|..];
        ConsAssoc(s[0], rest[0], sep);
        assert s == [s[0]] + t;
        assert first + sep <= s;
      } else {
        assert rest[0] == s[1..];
        assert s == [s[0]] + s[1..];
      }
    }
  }

  /** No occurrence of `sep` starts inside the first piece. */
  lemma {:induction false} SplitFirstLeftmost(s: String, sep: String)
    requires |sep| > 0
    ensures forall i :: 0 <= i < |Split(s, sep)[0]| ==> !(sep <= s[i..])
    decreases |s|
  {
    if s != [] && !(sep <= s) {
      var rest := Split(s[1..], sep);
      SplitFirstLeftmost(s[1..], sep);
      var first := [s[0]] + rest[0];
      assert Split(s, sep)[0] == first;
      forall i | 0 < i < |first|
        ensures !(sep <= s[i..])
      {
        assert s[i..] == s[1..][i - 1..];
      }
    }
  }

  /** Joining the pieces of a split with the same separator gives the
      input back. */
  lemma {:induction false} JoinSplit(s: String, sep: String)
    requires |sep| > 0
    ensures Join(Split(s, sep), sep) == s
    decreases |s|
  {
    if s == [] {
    } else if sep <= s {
      JoinSplit(s[|sep|..], sep);
      assert s == sep + s[|sep|..];
    } else {
      var rest := Split(s[1..], sep);
      JoinSplit(s[1..], sep);
      if |rest| == 1 {
        assert s == [s[0]] + s[1..];
      } else {
        assert ([[s[0]] + rest[0]] + rest[1..])[1..] == rest[1..];
        assert s == [s[0]] + (rest[0] + sep + Join(rest[1..], sep));
      }
    }
  }

  /** No piece of a split holds the separator. */
  lemma {:induction false} SplitPiecesLackSep(s: String, sep: String)
    requires |sep| > 0
    ensures forall k :: 0 <= k < |Split(s, sep)| ==> !Contains(Split(s, sep)[k], sep)
    decreases |s|
  {
    if s == [] {
    } else if sep <= s {
      SplitPiecesLackSep(s[|sep|..], sep);
      var r := Split(s, sep);
      forall k | 0 <= k < |r| ensures !Contains(r[k], sep) {
        if k > 0 { assert r[k] == Split(s[|sep|..], sep)[k - 1]; }
      }
    } else {
      var rest := Split(s[1..], sep);
      SplitPiecesLackSep(s[1..], sep);
      var head := [s[0]] + rest[0];
      PrefixTransitive(sep, head, s);
      assert head[1..] == rest[0];
      var r := Split(s, sep);
      forall k | 0 <= k < |r| ensures !Contains(r[k], sep) {
        if k > 0 { assert r[k] == rest[k]; }
      }
    }
  }

  /** Without the separator, the split is the whole string. */
  lemma {:induction false} SplitAbsent(s: String, sep: String)
    requires |sep| > 0 && !Contains(s, sep)
    ensures Split(s, sep) == [s]
    decreases |s|
  {
    if s != [] {
      SplitAbsent(s[1..], sep);
      assert s == [s[0]] + s[1..];
    }
  }

  /** Every character of every piece is a character of the input. */
  lemma {:induction false} SplitChars(s: String, sep: String)
    requires |sep| > 0
    ensures forall k, x :: 0 <= k < |Split(s, sep)| && x in Split(s, sep)[k] ==> x in s
    decreases |s|
  {
    if s == [] {
    } else if sep <= s {
      SplitChars(s[|sep|..], sep);
      var r := Split(s, sep);
      forall k, x | 0 <= k < |r| && x in r[k] ensures x in s {
        assert r[k] == Split(s[|sep|..], sep)[k - 1];
        assert x in s[|sep|..];
      }
    } else {
      var rest := Split(s[1..], sep);
      SplitChars(s[1..], sep);
      var r := Split(s, sep);
      forall k, x | 0 <= k < |r| && x in r[k] ensures x in s {
        if k == 0 {
          if x != s[0] { assert x in rest[0]; assert x in s[1..]; }
        } else {
          assert r[k] == rest[k];
          assert x in s[1..];
        }
      }
    }
  }

  lemma PrefixTransitive(a: String, b: String, c: String)
    ensures a <= b && b <= c ==> a <= c
  {
    if a <= b && b <= c {
      assert a == b[..|a|] == c[..|a|];
    }
  }
}
