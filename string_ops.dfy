/**
 * The two string helpers of the build tool: `trim`, which drops leading and
 * trailing blanks, and `split`, which cuts a string at a delimiter and keeps
 * only the non-empty pieces. The parser's private copies of both helpers are
 * the same code and use these definitions.
 */
module StringOps {

  /** The index of the first `c` in `s`, or |s| (standing for `npos`) if there is none. */
  function Find(s: string, c: char): (i: nat)
    ensures i <= |s|
    ensures forall k :: 0 <= k < i ==> s[k] != c
    ensures i < |s| ==> s[i] == c
    ensures i == |s| <==> c !in s
  {
    if s == [] || s[0] == c then 0 else 1 + Find(s[1..], c)
  }

  /** The characters `trim` removes: space and tab. */
  predicate IsBlank(c: char) {
    c == ' ' || c == '\t'
  }

  /** The index of the first non-blank character, or |s| if there is none. */
  function FirstNonBlank(s: string): (i: nat)
    ensures i <= |s|
    ensures forall k :: 0 <= k < i ==> IsBlank(s[k])
    ensures i < |s| ==> !IsBlank(s[i])
  {
    if s == [] || !IsBlank(s[0]) then 0 else 1 + FirstNonBlank(s[1..])
  }

  /** One past the index of the last non-blank character, or 0 if there is none. */
  function EndNonBlank(s: string): (j: nat)
    ensures j <= |s|
    ensures forall k :: j <= k < |s| ==> IsBlank(s[k])
    ensures 0 < j ==> !IsBlank(s[j - 1])
  {
    if s == [] || !IsBlank(s[|s| - 1]) then |s| else EndNonBlank(s[..|s| - 1])
  }

  /**
   * The string without its leading and trailing spaces and tabs. The result
   * is the slice between the first and the last non-blank character, so the
   * blanks inside it are kept; a string made only of blanks becomes "".
   */
  function Trim(s: string): (r: string)
    ensures r == [] || (!IsBlank(r[0]) && !IsBlank(r[|r| - 1]))
  {
    var first := FirstNonBlank(s);
    if first == |s| then
      assert s[|s|..|s|] == [];
      ""
    else
      var last := EndNonBlank(s);
      assert first < last;
      s[first..last]
  }

  /**
   * The trimmed string is empty exactly when `s` is all blanks, and it is a
   * slice of `s` with only blanks before and after it.
   */
  lemma TrimIsSlice(s: string)
    ensures Trim(s) == [] <==> forall k :: 0 <= k < |s| ==> IsBlank(s[k])
    ensures exists i, j :: 0 <= i <= j <= |s| && Trim(s) == s[i..j] &&
              (forall k :: 0 <= k < i ==> IsBlank(s[k])) &&
              (forall k :: j <= k < |s| ==> IsBlank(s[k]))
  {
    var first := FirstNonBlank(s);
    if first == |s| {
      assert s[|s|..|s|] == [];
    } else {
      var last := EndNonBlank(s);
      assert first < last;
    }
  }

  /** Trimming keeps every character that is not a blank. */
  lemma TrimKeeps(s: string, c: char)
    requires c in s && !IsBlank(c)
    ensures c in Trim(s)
  {
    var k :| 0 <= k < |s| && s[k] == c;
    var first, last := FirstNonBlank(s), EndNonBlank(s);
    assert first <= k < last;
    assert Trim(s)[k - first] == c;
  }

  /** Trimming twice is trimming once. */
  lemma {:induction false} TrimIdempotent(s: string)
    ensures Trim(Trim(s)) == Trim(s)
  {
    var r := Trim(s);
    if r != [] {
      assert FirstNonBlank(r) == 0;
      assert EndNonBlank(r) == |r|;
      assert r[0..|r|] == r;
    }
  }

  /** The pieces a delimiter-cut scan emits for the piece in progress. */
  function Emit(piece: string): seq<string> {
    if piece == [] then [] else [piece]
  }

  /**
   * The scan behind `split`: `piece` holds the characters read since the last
   * delimiter; a delimiter or the end of input closes the piece, and only a
   * non-empty piece is kept.
   */
  function SplitFrom(s: string, d: char, piece: string): seq<string>
    decreases |s|
  {
    if s == [] then Emit(piece)
    else if s[0] == d then Emit(piece) + SplitFrom(s[1..], d, [])
    else SplitFrom(s[1..], d, piece + [s[0]])
  }

  /**
   * The non-empty substrings of `s` between occurrences of `d`: no piece is
   * empty or holds `d`, and the pieces put back together give `s` with its
   * delimiters removed.
   */
  function Split(s: string, d: char): (r: seq<string>)
    ensures forall i :: 0 <= i < |r| ==> r[i] != [] && d !in r[i]
    ensures Concat(r) == Without(s, d)
  {
    SplitFromPieces(s, d, []);
    SplitFrom(s, d, [])
  }

  /** Concatenation of a list of strings. */
  function Concat(pieces: seq<string>): string {
    if pieces == [] then [] else pieces[0] + Concat(pieces[1..])
  }

  /** `s` with every occurrence of `d` removed. */
  function Without(s: string, d: char): string {
    if s == [] then [] else (if s[0] == d then [] else [s[0]]) + Without(s[1..], d)
  }

  lemma ConcatAppend(a: seq<string>, b: seq<string>)
    ensures Concat(a + b) == Concat(a) + Concat(b)
  {
    if a == [] {
      assert a + b == b;
    } else {
      assert (a + b)[1..] == a[1..] + b;
      ConcatAppend(a[1..], b);
    }
  }

  lemma {:induction false} SplitFromPieces(s: string, d: char, piece: string)
    requires d !in piece
    ensures forall i :: 0 <= i < |SplitFrom(s, d, piece)| ==>
              SplitFrom(s, d, piece)[i] != [] && d !in SplitFrom(s, d, piece)[i]
    ensures Concat(SplitFrom(s, d, piece)) == piece + Without(s, d)
    decreases |s|
  {
    if s == [] {
    } else if s[0] == d {
      SplitFromPieces(s[1..], d, []);
      ConcatAppend(Emit(piece), SplitFrom(s[1..], d, []));
    } else {
      SplitFromPieces(s[1..], d, piece + [s[0]]);
      assert piece + [s[0]] + Without(s[1..], d) == piece + Without(s, d);
    }
  }

  lemma {:induction false} SplitFromDelimiter(a: string, b: string, d: char, piece: string)
    ensures SplitFrom(a + [d] + b, d, piece) == SplitFrom(a, d, piece) + Split(b, d)
    decreases |a|
  {
    if a == [] {
      assert a + [d] + b == [d] + b;
      assert ([d] + b)[1..] == b;
    } else {
      assert (a + [d] + b)[0] == a[0];
      assert (a + [d] + b)[1..] == a[1..] + [d] + b;
      if a[0] == d {
        SplitFromDelimiter(a[1..], b, d, []);
      } else {
        SplitFromDelimiter(a[1..], b, d, piece + [a[0]]);
      }
    }
  }

  /** Splitting distributes over a delimiter: pieces never straddle one. */
  lemma SplitAtDelimiter(a: string, b: string, d: char)
    ensures Split(a + [d] + b, d) == Split(a, d) + Split(b, d)
  {
    SplitFromDelimiter(a, b, d, []);
  }

  lemma {:induction false} SplitFromRun(s: string, d: char, piece: string)
    requires d !in s
    ensures SplitFrom(s, d, piece) == Emit(piece + s)
    decreases |s|
  {
    if s == [] {
      assert piece + s == piece;
    } else {
      SplitFromRun(s[1..], d, piece + [s[0]]);
      assert piece + [s[0]] + s[1..] == piece + s;
    }
  }

  /** A non-empty run without delimiters is one piece; the empty string gives none. */
  lemma SplitRun(s: string, d: char)
    requires d !in s
    ensures Split(s, d) == (if s == [] then [] else [s])
  {
    SplitFromRun(s, d, []);
    assert [] + s == s;
  }

  /** A string made only of delimiters, the empty string included, splits into nothing. */
  lemma {:induction false} SplitOnlyDelimiters(s: string, d: char)
    requires forall k :: 0 <= k < |s| ==> s[k] == d
    ensures Split(s, d) == []
  {
    if s != [] {
      SplitOnlyDelimiters(s[1..], d);
      SplitAtDelimiter([], s[1..], d);
      assert [] + [d] + s[1..] == s;
      SplitRun([], d);
    }
  }

  /** Blanks around a string that starts and ends with a non-blank are exactly what trimming removes. */
  lemma TrimPadded(pre: string, core: string, post: string)
    requires forall k :: 0 <= k < |pre| ==> IsBlank(pre[k])
    requires forall k :: 0 <= k < |post| ==> IsBlank(post[k])
    requires core != [] && !IsBlank(core[0]) && !IsBlank(core[|core| - 1])
    ensures Trim(pre + core + post) == core
  {
    var s := pre + core + post;
    assert s[|pre|] == core[0] && s[|pre| + |core| - 1] == core[|core| - 1];
    assert forall k :: 0 <= k < |pre| ==> s[k] == pre[k];
    assert forall k :: |pre| + |core| <= k < |s| ==> s[k] == post[k - |pre| - |core|];
    assert FirstNonBlank(s) == |pre|;
    assert EndNonBlank(s) == |pre| + |core|;
    assert s[|pre|..|pre| + |core|] == core;
  }

  /** The blanks inside a trimmed string stay; a blank-only string trims to "". */
  lemma TrimExamples()
    ensures Trim("   a  b c  ") == "a  b c"
    ensures Trim("  ") == ""
  {
    TrimPadded("   ", "a  b c", "  ");
    assert "   " + "a  b c" + "  " == "   a  b c  ";
    TrimIsSlice("  ");
  }

  /** Delimiters and then one word without any: the word is the only piece. */
  lemma {:induction false} SplitLead(pre: string, w: string, d: char)
    requires forall k :: 0 <= k < |pre| ==> pre[k] == d
    requires w != [] && d !in w
    ensures Split(pre + w, d) == [w]
    decreases |pre|
  {
    if pre == [] {
      assert pre + w == w;
      SplitRun(w, d);
    } else {
      assert pre + w == [] + [d] + (pre[1..] + w);
      SplitAtDelimiter([], pre[1..] + w, d);
      SplitRun([], d);
      SplitLead(pre[1..], w, d);
    }
  }

  /** Delimiters, a word, and a rest that starts at a delimiter: the word is the first piece. */
  lemma SplitWord(pre: string, w: string, rest: string, d: char)
    requires forall k :: 0 <= k < |pre| ==> pre[k] == d
    requires w != [] && d !in w
    requires rest == [] || rest[0] == d
    ensures Split(pre + w + rest, d) == [w] + Split(rest, d)
  {
    SplitLead(pre, w, d);
    if rest == [] {
      assert pre + w + rest == pre + w;
      SplitRun([], d);
    } else {
      assert pre + w + rest == (pre + w) + [d] + rest[1..];
      SplitAtDelimiter(pre + w, rest[1..], d);
      assert rest == [] + [d] + rest[1..];
      SplitAtDelimiter([], rest[1..], d);
      SplitRun([], d);
    }
  }

  /** Three words separated, and optionally surrounded, by runs of delimiters. */
  lemma SplitThree(p1: string, a: string, p2: string, b: string, p3: string, c: string, p4: string, d: char)
    requires forall k :: 0 <= k < |p1| ==> p1[k] == d
    requires p2 != [] && forall k :: 0 <= k < |p2| ==> p2[k] == d
    requires p3 != [] && forall k :: 0 <= k < |p3| ==> p3[k] == d
    requires forall k :: 0 <= k < |p4| ==> p4[k] == d
    requires a != [] && d !in a && b != [] && d !in b && c != [] && d !in c
    ensures Split(p1 + a + (p2 + b + (p3 + c + p4)), d) == [a, b, c]
  {
    SplitOnlyDelimiters(p4, d);
    SplitWord(p3, c, p4, d);
    SplitWord(p2, b, p3 + c + p4, d);
    SplitWord(p1, a, p2 + b + (p3 + c + p4), d);
  }

  /** Runs of spaces of any length, leading and trailing ones too, separate the words. */
  lemma SplitExample()
    ensures Split("  a   b      c    ", ' ') == ["a", "b", "c"]
  {
    SplitThree("  ", "a", "   ", "b", "      ", "c", "    ", ' ');
    assert "  " + "a" + ("   " + "b" + ("      " + "c" + "    ")) == "  a   b      c    ";
  }
}
