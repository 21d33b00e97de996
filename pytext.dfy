/**
 * The few Python `str` operations the scrapers rely on: `strip()`, `split()`
 * with no separator, `replace()` of one character, and slicing off the first
 * character. Whitespace is what Python's `str.isspace()` accepts.
 */
module PyText {
  import opened Wrappers

  /** Python's `str.isspace()` for a single character. */
  predicate IsSpace(c: char) {
    c == ' ' || ('\t' <= c <= '\r') || ('\U{1C}' <= c <= '\U{1F}')
    || c == '\U{85}' || c == '\U{A0}' || c == '\U{1680}'
    || ('\U{2000}' <= c <= '\U{200A}') || c == '\U{2028}' || c == '\U{2029}'
    || c == '\U{202F}' || c == '\U{205F}' || c == '\U{3000}'
  }

  predicate NoSpace(s: string) {
    forall i :: 0 <= i < |s| ==> !IsSpace(s[i])
  }

  /** `s.lstrip()`: `s` without its leading whitespace (see `LStripSpec`). */
  function LStrip(s: string): string
  {
    if s != [] && IsSpace(s[0]) then LStrip(s[1..]) else s
  }

  /** `s.rstrip()`: `s` without its trailing whitespace (see `RStripSpec`). */
  function RStrip(s: string): string
  {
    if s != [] && IsSpace(s[|s| - 1]) then RStrip(s[..|s| - 1]) else s
  }

  /** `s.strip()` (see `StripSpec`). */
  function Strip(s: string): string
  {
    RStrip(LStrip(s))
  }

  /** `lstrip` drops exactly the leading run of whitespace. */
  lemma {:induction false} LStripSpec(s: string)
    ensures |LStrip(s)| <= |s| && LStrip(s) == s[|s| - |LStrip(s)|..]
    ensures LStrip(s) == [] || !IsSpace(LStrip(s)[0])
    ensures forall i :: 0 <= i < |s| - |LStrip(s)| ==> IsSpace(s[i])
  {
    if s != [] && IsSpace(s[0]) {
      LStripSpec(s[1..]);
      forall i | 0 <= i < |s| - |LStrip(s)| ensures IsSpace(s[i]) {
        if i > 0 { assert s[i] == s[1..][i - 1]; }
      }
    }
  }

  /** `rstrip` drops exactly the trailing run of whitespace. */
  lemma {:induction false} RStripSpec(s: string)
    ensures |RStrip(s)| <= |s| && RStrip(s) == s[..|RStrip(s)|]
    ensures RStrip(s) == [] || !IsSpace(RStrip(s)[|RStrip(s)| - 1])
    ensures forall i :: |RStrip(s)| <= i < |s| ==> IsSpace(s[i])
  {
    if s != [] && IsSpace(s[|s| - 1]) {
      var init := s[..|s| - 1];
      RStripSpec(init);
      assert RStrip(s) == RStrip(init);
      assert init[..|RStrip(init)|] == s[..|RStrip(init)|];
      forall i | |RStrip(s)| <= i < |s| ensures IsSpace(s[i]) {
        if i < |s| - 1 { assert s[i] == init[i]; }
      }
    }
  }

  lemma StripInfix(s: string)
    ensures |LStrip(s)| <= |s| && |s| - |LStrip(s)| + |Strip(s)| <= |s|
    ensures Strip(s) == s[|s| - |LStrip(s)|..|s| - |LStrip(s)| + |Strip(s)|]
    ensures forall i :: |s| - |LStrip(s)| + |Strip(s)| <= i < |s| ==> IsSpace(s[i])
  {
    var l := LStrip(s);
    var a := |s| - |l|;
    LStripSpec(s);
    RStripSpec(l);
    var r := Strip(s);
    assert l == s[a..];
    assert r == l[..|r|];
    forall i | a + |r| <= i < |s| ensures IsSpace(s[i]) {
      assert s[i] == l[i - a];
    }
  }

  /**
   * `strip` keeps the part of `s` between its leading and trailing runs of
   * whitespace: neither end of the result is whitespace and everything dropped is.
   */
  lemma StripSpec(s: string)
    ensures |LStrip(s)| <= |s|
    ensures var a := |s| - |LStrip(s)|;
      && a + |Strip(s)| <= |s| && Strip(s) == s[a..a + |Strip(s)|]
      && (forall i :: 0 <= i < a ==> IsSpace(s[i]))
      && (forall i :: a + |Strip(s)| <= i < |s| ==> IsSpace(s[i]))
    ensures Strip(s) == [] || (!IsSpace(Strip(s)[0]) && !IsSpace(Strip(s)[|Strip(s)| - 1]))
  {
    LStripSpec(s);
    RStripSpec(LStrip(s));
    StripInfix(s);
  }

  /** The length of the run of non-whitespace characters that starts `s`. */
  function WordLength(s: string): (n: nat)
    ensures n <= |s| && NoSpace(s[..n])
    ensures n < |s| ==> IsSpace(s[n])
    ensures s != [] && !IsSpace(s[0]) ==> n > 0
  {
    if s == [] || IsSpace(s[0]) then 0 else 1 + WordLength(s[1..])
  }

  /** `s.split()`: the maximal runs of non-whitespace characters, in order. */
  function Split(s: string): (r: seq<string>)
    ensures forall k :: 0 <= k < |r| ==> r[k] != [] && NoSpace(r[k])
    decreases |s|
  {
    if s == [] then []
    else if IsSpace(s[0]) then Split(s[1..])
    else
      var n := WordLength(s);
      [s[..n]] + Split(s[n..])
  }

  /**
   * `s.strip().split()[0]`, which the scrapers apply to a value cell to drop
   * the uncertainty printed after it; `None` where Python raises IndexError.
   */
  function FirstToken(s: string): (r: Option<string>)
    ensures r.Some? ==> r.value != [] && NoSpace(r.value)
    ensures r.None? <==> forall i :: 0 <= i < |s| ==> IsSpace(s[i])
  {
    var tokens := Split(Strip(s));
    if tokens == [] then
      AllSpaceWhenNoToken(s);
      None
    else
      SomeNonSpace(s);
      Some(tokens[0])
  }

  /** `s[1:]`: everything but the first character (empty stays empty). */
  function DropFirst(s: string): (r: string)
    ensures s != [] ==> [s[0]] + r == s
    ensures s == [] ==> r == []
  {
    if s == [] then [] else s[1..]
  }

  /** `s.replace(target, with)` where `target` is one character: every occurrence is replaced. */
  function Replace(s: string, target: char, with: string): (r: string)
    ensures target !in with ==> target !in r
  {
    if s == [] then []
    else (if s[0] == target then with else [s[0]]) + Replace(s[1..], target, with)
  }

  /** A string whose split is empty is all whitespace. */
  lemma {:induction false} SplitEmptyAllSpace(s: string)
    requires Split(s) == []
    ensures forall i :: 0 <= i < |s| ==> IsSpace(s[i])
  {
    if s != [] {
      assert IsSpace(s[0]);
      SplitEmptyAllSpace(s[1..]);
      forall i | 0 <= i < |s| ensures IsSpace(s[i]) {
        if i > 0 { assert s[i] == s[1..][i - 1]; }
      }
    }
  }

  lemma AllSpaceWhenNoToken(s: string)
    requires Split(Strip(s)) == []
    ensures forall i :: 0 <= i < |s| ==> IsSpace(s[i])
  {
    StripSpec(s);
    SplitEmptyAllSpace(Strip(s));
    assert Strip(s) == [];
  }

  lemma SomeNonSpace(s: string)
    requires Split(Strip(s)) != []
    ensures exists i :: 0 <= i < |s| && !IsSpace(s[i])
  {
    StripSpec(s);
    var a := |s| - |LStrip(s)|;
    assert Strip(s) != [];
    assert s[a] == Strip(s)[0];
  }

  /** Replacing in a concatenation replaces in each part. */
  lemma {:induction false} ReplaceAppend(a: string, b: string, target: char, with: string)
    ensures Replace(a + b, target, with) == Replace(a, target, with) + Replace(b, target, with)
  {
    if a != [] {
      assert (a + b)[0] == a[0];
      assert (a + b)[1..] == a[1..] + b;
      ReplaceAppend(a[1..], b, target, with);
      var h := if a[0] == target then with else [a[0]];
      calc {
        Replace(a + b, target, with);
        h + Replace(a[1..] + b, target, with);
        h + (Replace(a[1..], target, with) + Replace(b, target, with));
        (h + Replace(a[1..], target, with)) + Replace(b, target, with);
      }
    } else {
      assert a + b == b;
    }
  }

  /** Replacing a character that does not occur changes nothing. */
  lemma {:induction false} ReplaceAbsent(s: string, target: char, with: string)
    requires target !in s
    ensures Replace(s, target, with) == s
  {
    if s != [] {
      assert target !in s[1..];
      ReplaceAbsent(s[1..], target, with);
    }
  }

  /** Replacing the one occurrence of `c` between two texts without it. */
  lemma ReplaceBetween(a: string, c: char, b: string, with: string)
    requires c !in a && c !in b
    ensures Replace(a + [c] + b, c, with) == a + with + b
  {
    assert a + [c] + b == a + ([c] + b);
    ReplaceAppend(a, [c] + b, c, with);
    ReplaceAppend([c], b, c, with);
    ReplaceAbsent(a, c, with);
    ReplaceAbsent(b, c, with);
    assert Replace([c], c, with) == with by {
      assert [c][1..] == [];
    }
    assert a + (with + b) == a + with + b;
  }

  lemma {:induction false} WordLengthOf(w: string, t: string)
    requires NoSpace(w)
    requires t == [] || IsSpace(t[0])
    ensures WordLength(w + t) == |w|
  {
    if w != [] {
      assert (w + t)[1..] == w[1..] + t;
      WordLengthOf(w[1..], t);
    }
  }

  /** A word followed by whitespace (or nothing) is the first token. */
  lemma SplitWord(w: string, t: string)
    requires w != [] && NoSpace(w)
    requires t == [] || IsSpace(t[0])
    ensures Split(w + t) == [w] + Split(t)
  {
    WordLengthOf(w, t);
    assert (w + t)[..|w|] == w;
    assert (w + t)[|w|..] == t;
  }

  /** A string with non-whitespace at both ends is its own strip. */
  lemma StripUnchanged(s: string)
    requires s != [] && !IsSpace(s[0]) && !IsSpace(s[|s| - 1])
    ensures Strip(s) == s
  {
  }
}
