/** The options text of the "Add New Poll" form is turned into a list of
    options by splitting it on newlines, stripping every line and dropping
    the lines that are blank after stripping. This module models Python's
    str.split("\n") and str.strip() on strings of characters. */
module OptionText {

  /** The characters str.strip() removes when called with no argument: the
      characters for which Python's str.isspace() holds. */
  predicate IsSpace(c: char) {
    || ('\t' <= c && c <= '\r')
    || ('\U{1C}' <= c && c <= '\U{1F}')
    || c == ' '
    || c == '\U{85}'
    || c == '\U{A0}'
    || c == '\U{1680}'
    || ('\U{2000}' <= c && c <= '\U{200A}')
    || c == '\U{2028}'
    || c == '\U{2029}'
    || c == '\U{202F}'
    || c == '\U{205F}'
    || c == '\U{3000}'
  }

  ghost predicate AllSpace(s: string) {
    forall i :: 0 <= i < |s| ==> IsSpace(s[i])
  }

  /** No whitespace at either end. */
  ghost predicate IsStripped(s: string) {
    s == [] || (!IsSpace(s[0]) && !IsSpace(s[|s| - 1]))
  }

  /** Scanning right from lo: the index of the first character that is not
      whitespace, or |s| when there is none. */
  function SkipSpaceForward(s: string, lo: nat): (i: nat)
    requires lo <= |s|
    ensures lo <= i <= |s|
    ensures forall k :: lo <= k < i ==> IsSpace(s[k])
    ensures i == |s| || !IsSpace(s[i])
    decreases |s| - lo
  {
    if lo < |s| && IsSpace(s[lo]) then SkipSpaceForward(s, lo + 1) else lo
  }

  /** Scanning left from hi down to lo: the index just past the last character
      that is not whitespace, or lo when there is none. */
  function SkipSpaceBackward(s: string, lo: nat, hi: nat): (j: nat)
    requires lo <= hi <= |s|
    ensures lo <= j <= hi
    ensures forall k :: j <= k < hi ==> IsSpace(s[k])
    ensures j == lo || !IsSpace(s[j - 1])
  {
    if lo < hi && IsSpace(s[hi - 1]) then SkipSpaceBackward(s, lo, hi - 1) else hi
  }

  /** str.strip(): s with its leading and trailing whitespace removed. The
      result has no whitespace at either end; it is empty exactly when s is
      all whitespace; a string that is already stripped is left as it is. */
  function Strip(s: string): (r: string)
    ensures IsStripped(r)
    ensures r == [] <==> AllSpace(s)
    ensures IsStripped(s) ==> r == s
  {
    var i := SkipSpaceForward(s, 0);
    var j := SkipSpaceBackward(s, i, |s|);
    assert i < |s| ==> j > i;
    s[i..j]
  }

  /** What str.strip() removes is a run of whitespace at the front and a run
      of whitespace at the back: the result is the part of s between them,
      starting at offset i. */
  lemma StripKeepsMiddle(s: string) returns (i: nat)
    ensures i + |Strip(s)| <= |s|
    ensures forall k :: 0 <= k < |Strip(s)| ==> Strip(s)[k] == s[i + k]
    ensures forall k :: 0 <= k < i ==> IsSpace(s[k])
    ensures forall k :: i + |Strip(s)| <= k < |s| ==> IsSpace(s[k])
  {
    i := SkipSpaceForward(s, 0);
  }

  /** Stripping brings in no character that was not there. */
  lemma StripAddsNothing(s: string)
    ensures forall c :: c in Strip(s) ==> c in s
  {
  }

  /** str.split("\n"): the pieces between the newlines of s. There is always
      at least one piece, no piece holds a newline, and every character of a
      piece comes from s. */
  function Split(s: string): (r: seq<string>)
    ensures |r| >= 1
    ensures forall k :: 0 <= k < |r| ==> '\n' !in r[k]
    ensures forall k, c :: 0 <= k < |r| && c in r[k] ==> c in s
  {
    if s == [] then
      [[]]
    else
      var rest := Split(s[1..]);
      assert forall c :: c in s[1..] ==> c in s;
      if s[0] == '\n' then [[]] + rest
      else [[s[0]] + rest[0]] + rest[1..]
  }

  /** "\n".join(pieces), the inverse of Split. */
  function Join(pieces: seq<string>): (s: string)
    requires |pieces| >= 1
  {
    if |pieces| == 1 then pieces[0] else pieces[0] + "\n" + Join(pieces[1..])
  }

  /** Joining the pieces of s with newlines gives s back. */
  lemma {:induction false} JoinSplit(s: string)
    ensures Join(Split(s)) == s
  {
    if s != [] {
      var rest := Split(s[1..]);
      JoinSplit(s[1..]);
      if s[0] == '\n' {
        assert Split(s)[1..] == rest;
      } else if |rest| == 1 {
        assert Split(s) == [[s[0]] + rest[0]];
      } else {
        assert Split(s)[1..] == rest[1..];
        assert Join(rest) == rest[0] + "\n" + Join(rest[1..]);
      }
    }
  }

  /** Splitting a text that begins with a newline-free piece a. */
  lemma {:induction false} SplitPrefix(a: string, b: string)
    requires '\n' !in a
    ensures Split(a + b) == [a + Split(b)[0]] + Split(b)[1..]
  {
    if a != [] {
      assert (a + b)[1..] == a[1..] + b;
      SplitPrefix(a[1..], b);
      assert [a[0]] + (a[1..] + Split(b)[0]) == a + Split(b)[0];
    } else {
      assert a + b == b && a + Split(b)[0] == Split(b)[0];
      assert [Split(b)[0]] + Split(b)[1..] == Split(b);
    }
  }

  /** Splitting newline-free pieces joined with newlines gives the pieces back. */
  lemma {:induction false} SplitJoin(pieces: seq<string>)
    requires |pieces| >= 1
    requires forall k :: 0 <= k < |pieces| ==> '\n' !in pieces[k]
    ensures Split(Join(pieces)) == pieces
  {
    if |pieces| == 1 {
      SplitPrefix(pieces[0], []);
      assert pieces[0] + [] == pieces[0];
    } else {
      var tail := Join(pieces[1..]);
      SplitJoin(pieces[1..]);
      assert "\n" + tail != [] && ("\n" + tail)[1..] == tail;
      assert Split("\n" + tail) == [[]] + pieces[1..];
      assert Join(pieces) == pieces[0] + ("\n" + tail);
      SplitPrefix(pieces[0], "\n" + tail);
      assert pieces[0] + [] == pieces[0];
      assert [pieces[0]] + pieces[1..] == pieces;
    }
  }

  /** Some line of lines strips to x (one line after another, so that the
      verifier unfolds it only as far as it needs). */
  ghost predicate StripsTo(lines: seq<string>, x: string) {
    lines != [] && (Strip(lines[0]) == x || StripsTo(lines[1..], x))
  }

  /** The line that strips to x. */
  lemma {:induction false} StripsToLine(lines: seq<string>, x: string) returns (k: nat)
    requires StripsTo(lines, x)
    ensures k < |lines| && Strip(lines[k]) == x
  {
    if Strip(lines[0]) == x {
      k := 0;
    } else {
      var j := StripsToLine(lines[1..], x);
      assert lines[1..][j] == lines[j + 1];
      k := j + 1;
    }
  }

  /** The list comprehension [l.strip() for l in lines if l.strip()]: every
      option it yields is non-empty and stripped, and a string is among them
      exactly when it is the non-empty stripped form of one of the lines. */
  function KeepNonBlank(lines: seq<string>): (r: seq<string>)
    ensures |r| <= |lines|
    ensures forall x :: x in r ==> x != [] && IsStripped(x)
    ensures forall x :: x in r ==> StripsTo(lines, x)
    ensures forall l :: l in lines && Strip(l) != [] ==> Strip(l) in r
    ensures (forall l :: l in lines ==> '\n' !in l) ==> forall x :: x in r ==> '\n' !in x
  {
    if lines == [] then
      []
    else
      var rest := KeepNonBlank(lines[1..]);
      var s := Strip(lines[0]);
      StripAddsNothing(lines[0]);
      if s != [] then [s] + rest else rest
  }

  /** [l.strip() for l in lines]: every line stripped, one for one. */
  function StripAll(lines: seq<string>): (r: seq<string>)
    ensures |r| == |lines|
    ensures forall k :: 0 <= k < |lines| ==> r[k] == Strip(lines[k])
  {
    if lines == [] then [] else [Strip(lines[0])] + StripAll(lines[1..])
  }

  /** The positions, from lo on and in increasing order, of the non-empty
      strings of s. */
  ghost function NonEmptyFrom(s: seq<string>, lo: nat): seq<nat>
    requires lo <= |s|
    decreases |s| - lo
  {
    if lo == |s| then []
    else if s[lo] != [] then [lo] + NonEmptyFrom(s, lo + 1)
    else NonEmptyFrom(s, lo + 1)
  }

  /** Every position NonEmptyFrom lists holds a non-empty string, from lo on. */
  lemma {:induction false} NonEmptyFromAt(s: seq<string>, lo: nat, i: nat)
    requires lo <= |s| && i < |NonEmptyFrom(s, lo)|
    ensures lo <= NonEmptyFrom(s, lo)[i] < |s| && s[NonEmptyFrom(s, lo)[i]] != []
    decreases |s| - lo
  {
    if s[lo] == [] {
      NonEmptyFromAt(s, lo + 1, i);
    } else if i > 0 {
      NonEmptyFromAt(s, lo + 1, i - 1);
    }
  }

  /** NonEmptyFrom lists its positions in increasing order. */
  lemma {:induction false} NonEmptyFromIncreasing(s: seq<string>, lo: nat, i: nat, j: nat)
    requires lo <= |s| && i < j < |NonEmptyFrom(s, lo)|
    ensures NonEmptyFrom(s, lo)[i] < NonEmptyFrom(s, lo)[j]
    decreases |s| - lo
  {
    if s[lo] == [] {
      NonEmptyFromIncreasing(s, lo + 1, i, j);
    } else if i > 0 {
      NonEmptyFromIncreasing(s, lo + 1, i - 1, j - 1);
    } else {
      NonEmptyFromAt(s, lo + 1, j - 1);
    }
  }

  /** Every non-empty string of s from lo on is listed by NonEmptyFrom, at
      place i. */
  lemma {:induction false} NonEmptyFromHas(s: seq<string>, lo: nat, k: nat) returns (i: nat)
    requires lo <= k < |s| && s[k] != []
    ensures i < |NonEmptyFrom(s, lo)| && NonEmptyFrom(s, lo)[i] == k
    decreases |s| - lo
  {
    if k == lo {
      i := 0;
    } else if s[lo] == [] {
      i := NonEmptyFromHas(s, lo + 1, k);
    } else {
      var j := NonEmptyFromHas(s, lo + 1, k);
      i := j + 1;
    }
  }

  /** The non-empty strings of s, in order. */
  ghost function DropEmpty(s: seq<string>): seq<string> {
    if s == [] then []
    else if s[0] != [] then [s[0]] + DropEmpty(s[1..])
    else DropEmpty(s[1..])
  }

  /** The comprehension strips every line and then drops the empty results. */
  lemma {:induction false} KeepNonBlankDropsEmpty(lines: seq<string>)
    ensures KeepNonBlank(lines) == DropEmpty(StripAll(lines))
  {
    if lines != [] {
      KeepNonBlankDropsEmpty(lines[1..]);
      assert StripAll(lines)[1..] == StripAll(lines[1..]);
    }
  }

  /** DropEmpty keeps as many strings from lo on as NonEmptyFrom lists. */
  lemma {:induction false} DropEmptyLength(s: seq<string>, lo: nat)
    requires lo <= |s|
    ensures |DropEmpty(s[lo..])| == |NonEmptyFrom(s, lo)|
    decreases |s| - lo
  {
    if lo < |s| {
      DropEmptyLength(s, lo + 1);
      assert s[lo..][1..] == s[lo + 1..];
    }
  }

  /** The i-th string DropEmpty keeps from lo on is the one at the i-th
      position NonEmptyFrom lists. */
  lemma {:induction false} DropEmptyAt(s: seq<string>, lo: nat, i: nat)
    requires lo <= |s| && i < |NonEmptyFrom(s, lo)|
    ensures NonEmptyFrom(s, lo)[i] < |s|
    ensures i < |DropEmpty(s[lo..])| && DropEmpty(s[lo..])[i] == s[NonEmptyFrom(s, lo)[i]]
    decreases |s| - lo
  {
    DropEmptyLength(s, lo);
    NonEmptyFromAt(s, lo, i);
    assert s[lo..][1..] == s[lo + 1..];
    if s[lo] == [] {
      DropEmptyAt(s, lo + 1, i);
    } else if i > 0 {
      DropEmptyAt(s, lo + 1, i - 1);
    }
  }

  /** Where each option comes from: the result is the stripped form of the
      lines at the strictly increasing positions idx, and those are exactly
      the lines that are not blank after stripping. So every non-blank line
      contributes one option, in order, repeats included. */
  lemma KeepNonBlankLines(lines: seq<string>) returns (idx: seq<nat>)
    ensures |idx| == |KeepNonBlank(lines)|
    ensures forall i :: 0 <= i < |idx| ==> idx[i] < |lines|
    ensures forall i :: 0 <= i < |idx| ==> KeepNonBlank(lines)[i] == Strip(lines[idx[i]])
    ensures forall i, j :: 0 <= i < j < |idx| ==> idx[i] < idx[j]
    ensures forall k :: 0 <= k < |lines| && Strip(lines[k]) != [] ==> k in idx
  {
    var stripped := StripAll(lines);
    KeepNonBlankDropsEmpty(lines);
    DropEmptyLength(stripped, 0);
    assert stripped[0..] == stripped;
    idx := NonEmptyFrom(stripped, 0);
    forall i | 0 <= i < |idx|
      ensures idx[i] < |lines| && KeepNonBlank(lines)[i] == Strip(lines[idx[i]])
    {
      DropEmptyAt(stripped, 0, i);
    }
    forall i, j | 0 <= i < j < |idx|
      ensures idx[i] < idx[j]
    {
      NonEmptyFromIncreasing(stripped, 0, i, j);
    }
    forall k | 0 <= k < |lines| && Strip(lines[k]) != []
      ensures k in idx
    {
      var i := NonEmptyFromHas(stripped, 0, k);
    }
  }

  /** The options entered one per line in the form's text area. None of them
      is empty, starts or ends with whitespace, or holds a newline; there are
      no more of them than lines; and a string is an option exactly when some
      line strips to it. ParseOptionsLines gives their order and repeats. */
  function ParseOptions(text: string): (r: seq<string>)
    ensures |r| <= |Split(text)|
    ensures forall x :: x in r ==> x != [] && IsStripped(x) && '\n' !in x
    ensures forall x :: x in r ==> StripsTo(Split(text), x)
    ensures forall l :: l in Split(text) && Strip(l) != [] ==> Strip(l) in r
  {
    KeepNonBlank(Split(text))
  }

  /** The options of text are the stripped non-blank lines of text, one per
      line and in order; see KeepNonBlankLines. */
  lemma ParseOptionsLines(text: string) returns (idx: seq<nat>)
    ensures |idx| == |ParseOptions(text)|
    ensures forall i :: 0 <= i < |idx| ==> idx[i] < |Split(text)| && ParseOptions(text)[i] == Strip(Split(text)[idx[i]])
    ensures forall i, j :: 0 <= i < j < |idx| ==> idx[i] < idx[j]
    ensures forall k :: 0 <= k < |Split(text)| && Strip(Split(text)[k]) != [] ==> k in idx
  {
    idx := KeepNonBlankLines(Split(text));
  }

  /** Two lines that are not blank after stripping give at least two options,
      even when they strip to the same string: the count the form checks is
      taken before repeats are merged. */
  lemma TwoNonBlankLinesGiveTwoOptions(text: string, k1: nat, k2: nat)
    requires k1 < k2 < |Split(text)|
    requires Strip(Split(text)[k1]) != [] && Strip(Split(text)[k2]) != []
    ensures |ParseOptions(text)| >= 2
  {
    var idx := ParseOptionsLines(text);
    var i1 :| 0 <= i1 < |idx| && idx[i1] == k1;
    var i2 :| 0 <= i2 < |idx| && idx[i2] == k2;
    assert i1 != i2;
  }

  /** Lines that are already non-empty and stripped all pass through. */
  lemma {:induction false} KeepNonBlankKeepsClean(lines: seq<string>)
    requires forall l :: l in lines ==> l != [] && IsStripped(l)
    ensures KeepNonBlank(lines) == lines
  {
    if lines != [] {
      assert lines[0] in lines && Strip(lines[0]) == lines[0];
      assert forall l :: l in lines[1..] ==> l in lines;
      KeepNonBlankKeepsClean(lines[1..]);
      assert KeepNonBlank(lines) == [lines[0]] + lines[1..];
    }
  }

  /** Options written one per line, each non-empty and without surrounding
      whitespace, are parsed back exactly, in order and with repeats. */
  lemma ParseOptionsOfLines(options: seq<string>)
    requires |options| >= 1
    requires forall o :: o in options ==> o != [] && IsStripped(o) && '\n' !in o
    ensures ParseOptions(Join(options)) == options
  {
    SplitJoin(options);
    KeepNonBlankKeepsClean(options);
  }

  /** Every line of a whitespace-only text is whitespace only. */
  lemma BlankTextHasBlankLines(text: string, k: nat)
    requires AllSpace(text) && k < |Split(text)|
    ensures AllSpace(Split(text)[k])
  {
    var l := Split(text)[k];
    forall i | 0 <= i < |l|
      ensures IsSpace(l[i])
    {
      assert l[i] in Split(text)[k];
      assert l[i] in text;
      var j :| 0 <= j < |text| && text[j] == l[i];
    }
  }

  /** A text made of whitespace only (line breaks included) yields no option,
      so the form rejects it even though it is not empty. */
  lemma {:induction false} BlankTextHasNoOptions(text: string)
    requires AllSpace(text)
    ensures ParseOptions(text) == []
  {
    var r := ParseOptions(text);
    if r != [] {
      assert r[0] in r;
      var k := StripsToLine(Split(text), r[0]);
      BlankTextHasBlankLines(text, k);
      assert false;
    }
  }
}
