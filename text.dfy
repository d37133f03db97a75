/** The string operations the program relies on: Python's `str.strip()`, the
    ASCII case folding of SQLite's LIKE operator, and Python's ordering of strings. */
module Text {

  /** The characters for which Python's `str.isspace()` holds, which are the ones
      `str.strip()` removes. */
  predicate IsSpace(c: char)
  {
    || c == ' '
    || ('\t' <= c <= '\r')
    || ('\U{1C}' <= c <= '\U{1F}')
    || c == '\U{85}' || c == '\U{A0}' || c == '\U{1680}'
    || ('\U{2000}' <= c <= '\U{200A}')
    || c == '\U{2028}' || c == '\U{2029}' || c == '\U{202F}' || c == '\U{205F}' || c == '\U{3000}'
  }

  /** `s` without its leading whitespace. */
  function TrimStart(s: string): string
  {
    if s != [] && IsSpace(s[0]) then TrimStart(s[1..]) else s
  }

  /** `s` without its trailing whitespace. */
  function TrimEnd(s: string): string
  {
    if s != [] && IsSpace(s[|s| - 1]) then TrimEnd(s[..|s| - 1]) else s
  }

  /** Trimming the start drops exactly the leading whitespace: what is left is a
      suffix that does not start with whitespace, and all that went is whitespace. */
  lemma {:induction false} TrimStartDropsLeadingSpace(s: string)
    ensures var r := TrimStart(s);
      && |r| <= |s| && r == s[|s| - |r|..]
      && (r == [] || !IsSpace(r[0]))
      && (forall k :: 0 <= k < |s| - |r| ==> IsSpace(s[k]))
  {
    if s != [] && IsSpace(s[0]) {
      var tail := s[1..];
      TrimStartDropsLeadingSpace(tail);
      var r := TrimStart(tail);
      assert TrimStart(s) == r;
      assert tail[|tail| - |r|..] == s[|s| - |r|..];
      forall k | 1 <= k < |s| - |r| ensures IsSpace(s[k]) {
        assert s[k] == tail[k - 1];
      }
    }
  }

  /** Trimming the end drops exactly the trailing whitespace: what is left is a
      prefix that does not end with whitespace, and all that went is whitespace. */
  lemma {:induction false} TrimEndDropsTrailingSpace(s: string)
    ensures var r := TrimEnd(s);
      && |r| <= |s| && r == s[..|r|]
      && (r == [] || !IsSpace(r[|r| - 1]))
      && (forall k :: |r| <= k < |s| ==> IsSpace(s[k]))
  {
    if s != [] && IsSpace(s[|s| - 1]) {
      var init := s[..|s| - 1];
      TrimEndDropsTrailingSpace(init);
      var r := TrimEnd(init);
      assert TrimEnd(s) == r;
      assert init[..|r|] == s[..|r|];
      forall k | |r| <= k < |s| - 1 ensures IsSpace(s[k]) {
        assert s[k] == init[k];
      }
    }
  }

  /** `r` is the part of `s` that starts at `i`, and everything of `s` before
      and after it is whitespace. */
  ghost predicate StrippedAt(s: string, r: string, i: int)
  {
    && 0 <= i <= |s| - |r|
    && s[i..i + |r|] == r
    && (forall k :: 0 <= k < i ==> IsSpace(s[k]))
    && (forall k :: i + |r| <= k < |s| ==> IsSpace(s[k]))
  }

  /** Python's `s.strip()`. */
  function Strip(s: string): string
  {
    TrimEnd(TrimStart(s))
  }

  /** The stripped string neither starts nor ends with whitespace, and it is the
      part of the input left once all surrounding whitespace is removed. */
  lemma StripTrims(s: string)
    ensures var r := Strip(s);
      && (r == [] || (!IsSpace(r[0]) && !IsSpace(r[|r| - 1])))
      && exists i :: StrippedAt(s, r, i)
  {
    var t := TrimStart(s);
    var r := TrimEnd(t);
    TrimStartDropsLeadingSpace(s);
    TrimEndDropsTrailingSpace(t);
    assert StrippedAt(s, r, |s| - |t|);
  }

  /** A string made only of whitespace strips to the empty string, and only such a one. */
  lemma StripBlank(s: string)
    ensures Strip(s) == [] <==> forall k :: 0 <= k < |s| ==> IsSpace(s[k])
  {
    StripTrims(s);
    var i :| StrippedAt(s, Strip(s), i);
  }

  /** Stripping twice is stripping once. */
  lemma StripIdempotent(s: string)
    ensures Strip(Strip(s)) == Strip(s)
  {
    var r := Strip(s);
    StripTrims(s);
    assert TrimStart(r) == r;
    assert TrimEnd(r) == r;
  }

  lemma {:induction false} TrimStartAppend(s: string, c: char)
    ensures TrimStart(s + [c]) == if TrimStart(s) == [] && IsSpace(c) then [] else TrimStart(s) + [c]
  {
    var sc := s + [c];
    if s == [] {
      assert sc == [c] && sc[1..] == [];
    } else {
      assert sc[0] == s[0];
      assert sc[1..] == s[1..] + [c];
      if IsSpace(s[0]) {
        TrimStartAppend(s[1..], c);
      }
    }
  }

  /** Whitespace after the last character does not change what `strip()` returns;
      a Tk text box, for one, always hands back its text with a newline added. */
  lemma StripIgnoresTrailingSpace(s: string, c: char)
    requires IsSpace(c)
    ensures Strip(s + [c]) == Strip(s)
  {
    TrimStartAppend(s, c);
    var t := TrimStart(s);
    if t != [] {
      assert (t + [c])[..|t|] == t;
    }
  }

  /** ASCII lower-casing, the only case folding SQLite's LIKE does. */
  function Lower(c: char): char
  {
    if 'A' <= c <= 'Z' then (c as int + 32) as char else c
  }

  /** `a` and `b` are equal once ASCII letters are folded to lower case. */
  predicate SameIgnoringCase(a: string, b: string)
  {
    |a| == |b| && forall k :: 0 <= k < |a| ==> Lower(a[k]) == Lower(b[k])
  }

  /** `query` occurs in `text` at position `i`, ignoring ASCII case. */
  ghost predicate OccursAt(text: string, query: string, i: int)
  {
    0 <= i <= |text| - |query| && SameIgnoringCase(text[i..i + |query|], query)
  }

  lemma OccursShift(text: string, query: string, i: int)
    requires 1 <= i && text != []
    ensures OccursAt(text, query, i) <==> OccursAt(text[1..], query, i - 1)
  {
    if i <= |text| - |query| {
      var a := text[i..i + |query|];
      var b := text[1..][i - 1..i - 1 + |query|];
      assert |a| == |b|;
      assert forall k :: 0 <= k < |a| ==> a[k] == text[i + k] == b[k];
      assert a == b;
    }
  }

  /** `text LIKE '%' || query || '%'` for a query without wildcards: `query`
      occurs somewhere in `text`, ignoring ASCII case. */
  function ContainsIgnoringCase(text: string, query: string): (b: bool)
    ensures b <==> exists i :: OccursAt(text, query, i)
    decreases |text|
  {
    if |query| > |text| then false
    else if SameIgnoringCase(text[..|query|], query) then
      assert OccursAt(text, query, 0);
      true
    else
      var rest := ContainsIgnoringCase(text[1..], query);
      assert forall i :: 1 <= i ==> (OccursAt(text, query, i) <==> OccursAt(text[1..], query, i - 1)) by {
        forall i | 1 <= i
          ensures OccursAt(text, query, i) <==> OccursAt(text[1..], query, i - 1)
        {
          OccursShift(text, query, i);
        }
      }
      assert !OccursAt(text, query, 0);
      assert rest ==> exists i :: OccursAt(text, query, i) by {
        if rest {
          var j :| OccursAt(text[1..], query, j);
          assert OccursAt(text, query, j + 1);
        }
      }
      rest
  }

  /** Python's `a < b` on strings: code-point-wise lexicographic order. */
  predicate LexLess(a: string, b: string)
  {
    if a == [] then b != []
    else if b == [] then false
    else if a[0] != b[0] then a[0] < b[0]
    else LexLess(a[1..], b[1..])
  }

  lemma {:induction false} LexLessIrreflexive(a: string)
    ensures !LexLess(a, a)
  {
    if a != [] {
      LexLessIrreflexive(a[1..]);
    }
  }

  lemma {:induction false} LexLessTransitive(a: string, b: string, c: string)
    requires LexLess(a, b) && LexLess(b, c)
    ensures LexLess(a, c)
  {
    if a != [] && b != [] && c != [] && a[0] == b[0] == c[0] {
      LexLessTransitive(a[1..], b[1..], c[1..]);
    }
  }

  lemma {:induction false} LexLessTotal(a: string, b: string)
    ensures a == b || LexLess(a, b) || LexLess(b, a)
  {
    if a != [] && b != [] && a[0] == b[0] {
      LexLessTotal(a[1..], b[1..]);
      if a[1..] == b[1..] {
        assert a == [a[0]] + a[1..] && b == [b[0]] + b[1..];
      }
    }
  }

  lemma {:induction false} LexLessAsymmetric(a: string, b: string)
    requires LexLess(a, b)
    ensures !LexLess(b, a)
  {
    if a != [] && b != [] && a[0] == b[0] {
      LexLessAsymmetric(a[1..], b[1..]);
    }
  }
}
