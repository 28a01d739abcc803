/** Text preparation for topic modelling in the dashboard: `clean_text_for_topic`
    (lower-case, collapse whitespace runs, drop everything but letters and
    whitespace) and the number of topics asked of the topic model. */
module TopicText {
  import opened Text

  /** Python's `\s` on ASCII: space, tab, line feed, vertical tab, form feed,
      carriage return, and the four separators U+001C to U+001F. */
  predicate IsSpace(c: char)
  {
    c == ' ' || 9 <= c as int <= 13 || 28 <= c as int <= 31
  }

  /** The input with its leading whitespace run removed. */
  function SkipSpaces(s: string): (r: string)
    ensures |r| <= |s|
    ensures r == [] || !IsSpace(r[0])
  {
    if s != [] && IsSpace(s[0]) then SkipSpaces(s[1..]) else s
  }

  /** `re.sub(r'\s+', ' ', s)`: every maximal whitespace run becomes one space.
      The result is empty only for the empty input, starts with a space exactly
      when the input starts with whitespace, and keeps the characters that are
      not whitespace, in order. `CollapseShape`, `CollapseSplit` and
      `CollapseNoWhite` say where the spaces go. */
  function CollapseWhitespace(s: string): (r: string)
    ensures r == [] <==> s == []
    ensures r != [] ==> (r[0] == ' ' <==> IsSpace(s[0]))
    ensures NonWhite(r) == NonWhite(s)
    decreases |s|
  {
    if s == [] then []
    else if IsSpace(s[0]) then
      var t := SkipSpaces(s[1..]);
      SkipSpacesNonWhite(s[1..]);
      var rest := CollapseWhitespace(t);
      assert ([' '] + rest)[1..] == rest;
      [' '] + rest
    else
      var rest := CollapseWhitespace(s[1..]);
      assert ([s[0]] + rest)[1..] == rest;
      [s[0]] + rest
  }

  /** The collapsed text holds no whitespace but the space, never two spaces
      in a row, and nothing that is not in the input or a space. */
  lemma {:induction false} CollapseShape(s: string)
    ensures var r := CollapseWhitespace(s);
      forall i :: 0 <= i < |r| ==> (IsSpace(r[i]) ==> r[i] == ' ') && (r[i] in s || r[i] == ' ')
    ensures var r := CollapseWhitespace(s);
      forall i :: 0 <= i < |r| - 1 ==> !(r[i] == ' ' && r[i + 1] == ' ')
    decreases |s|
  {
    if s != [] {
      if IsSpace(s[0]) {
        var t := SkipSpaces(s[1..]);
        CollapseShape(t);
        SkipSpacesSuffix(s[1..]);
        assert CollapseWhitespace(s) == [' '] + CollapseWhitespace(t);
      } else {
        CollapseShape(s[1..]);
        assert CollapseWhitespace(s) == [s[0]] + CollapseWhitespace(s[1..]);
      }
    }
  }

  /** `re.sub(r'[^a-zA-Z\s]', '', s)`: keep ASCII letters and whitespace only.
      The letters are those of the input, in order, and there are as many
      spaces. `KeepAlphabet` says what else is kept, and `KeepOne` and
      `KeepAppend` pin down the result character by character. */
  function KeepLettersAndSpaces(s: string): (r: string)
    ensures Letters(r) == Letters(s)
    ensures Spaces(r) == Spaces(s)
  {
    if s == [] then []
    else
      var rest := KeepLettersAndSpaces(s[1..]);
      if IsLetter(s[0]) || IsSpace(s[0]) then
        assert ([s[0]] + rest)[1..] == rest;
        [s[0]] + rest
      else rest
  }

  /** Everything kept comes from the input and is a letter or whitespace. */
  lemma {:induction false} KeepAlphabet(s: string)
    ensures forall c :: c in KeepLettersAndSpaces(s) ==> c in s && (IsLetter(c) || IsSpace(c))
  {
    if s != [] {
      KeepAlphabet(s[1..]);
      var rest := KeepLettersAndSpaces(s[1..]);
      assert forall c :: c in rest ==> c in s[1..];
      assert s == [s[0]] + s[1..];
      if IsLetter(s[0]) || IsSpace(s[0]) {
        assert KeepLettersAndSpaces(s) == [s[0]] + rest;
      } else {
        assert KeepLettersAndSpaces(s) == rest;
      }
    }
  }

  /** `clean_text_for_topic(text)`. The cleaned text consists of lower-case
      ASCII letters and spaces; its letters are the letters of the input,
      lower-cased, in their original order; and it has one space per
      whitespace run of the input. */
  function CleanTopicText(text: string): (r: string)
    ensures forall i :: 0 <= i < |r| ==> IsLowerLetter(r[i]) || r[i] == ' '
    ensures Letters(r) == Lower(Letters(text))
    ensures Spaces(r) == SpaceRuns(text, false)
  {
    var lowered := Lower(text);
    var collapsed := CollapseWhitespace(lowered);
    CollapseCounts(lowered);
    LowerLetters(text);
    CleanAlphabet(lowered, collapsed);
    KeepLettersAndSpaces(collapsed)
  }

  /** Cleaning a lower-cased text leaves only lower-case letters and spaces. */
  lemma CleanAlphabet(lowered: string, collapsed: string)
    requires forall i :: 0 <= i < |lowered| ==> !IsUpper(lowered[i])
    requires collapsed == CollapseWhitespace(lowered)
    ensures forall i :: 0 <= i < |KeepLettersAndSpaces(collapsed)| ==>
      IsLowerLetter(KeepLettersAndSpaces(collapsed)[i]) || KeepLettersAndSpaces(collapsed)[i] == ' '
  {
    var r := KeepLettersAndSpaces(collapsed);
    CollapseShape(lowered);
    KeepAlphabet(collapsed);
    forall i | 0 <= i < |r|
      ensures IsLowerLetter(r[i]) || r[i] == ' '
    {
      assert r[i] in r;
      var j :| 0 <= j < |collapsed| && collapsed[j] == r[i];
      if r[i] != ' ' {
        var k :| 0 <= k < |lowered| && lowered[k] == collapsed[j];
      }
    }
  }

  /** The characters of `s` that are not whitespace, in order. */
  function NonWhite(s: string): string
  {
    if s == [] then []
    else if IsSpace(s[0]) then NonWhite(s[1..])
    else [s[0]] + NonWhite(s[1..])
  }

  /** Every character of `w` is whitespace. */
  predicate AllWhite(w: string)
  {
    forall i :: 0 <= i < |w| ==> IsSpace(w[i])
  }

  /** The letters of a string, in order. */
  function Letters(s: string): string
  {
    if s == [] then []
    else if IsLetter(s[0]) then [s[0]] + Letters(s[1..])
    else Letters(s[1..])
  }

  /** Number of maximal whitespace runs in `s`, `afterSpace` telling whether
      the character before `s` was whitespace. */
  function SpaceRuns(s: string, afterSpace: bool): nat
  {
    if s == [] then 0
    else (if IsSpace(s[0]) && !afterSpace then 1 else 0) + SpaceRuns(s[1..], IsSpace(s[0]))
  }

  /** Number of spaces in `s`. */
  function Spaces(s: string): nat
  {
    if s == [] then 0 else (if s[0] == ' ' then 1 else 0) + Spaces(s[1..])
  }

  lemma {:induction false} SkipSpacesLetters(s: string)
    ensures Letters(SkipSpaces(s)) == Letters(s)
    ensures SpaceRuns(SkipSpaces(s), true) == SpaceRuns(s, true)
  {
    if s != [] && IsSpace(s[0]) {
      SkipSpacesLetters(s[1..]);
    }
  }

  lemma {:induction false} SkipSpacesNonWhite(s: string)
    ensures NonWhite(SkipSpaces(s)) == NonWhite(s)
  {
    if s != [] && IsSpace(s[0]) {
      SkipSpacesNonWhite(s[1..]);
    }
  }

  lemma {:induction false} SkipSpacesSuffix(s: string)
    ensures forall c :: c in SkipSpaces(s) ==> c in s
  {
    if s != [] && IsSpace(s[0]) {
      SkipSpacesSuffix(s[1..]);
    }
  }

  /** Collapsing keeps the letters and turns each whitespace run into exactly one space. */
  lemma {:induction false} CollapseCounts(s: string)
    ensures Letters(CollapseWhitespace(s)) == Letters(s)
    ensures Spaces(CollapseWhitespace(s)) == SpaceRuns(s, false)
    decreases |s|
  {
    if s != [] {
      if IsSpace(s[0]) {
        var t := SkipSpaces(s[1..]);
        CollapseCounts(t);
        SkipSpacesLetters(s[1..]);
        assert SpaceRuns(t, true) == SpaceRuns(t, false) by {
          if t != [] {
            assert !IsSpace(t[0]);
          }
        }
        assert ([' '] + CollapseWhitespace(t))[1..] == CollapseWhitespace(t);
      } else {
        CollapseCounts(s[1..]);
        assert ([s[0]] + CollapseWhitespace(s[1..]))[1..] == CollapseWhitespace(s[1..]);
      }
    }
  }

  /** Skipping whitespace stops inside a string that ends in something else,
      so whatever follows that string is left alone. */
  lemma {:induction false} SkipSpacesAppend(x: string, y: string)
    requires x != [] && !IsSpace(x[|x| - 1])
    ensures SkipSpaces(x + y) == SkipSpaces(x) + y
    ensures SkipSpaces(x) != [] && SkipSpaces(x)[|SkipSpaces(x)| - 1] == x[|x| - 1]
  {
    if IsSpace(x[0]) {
      SkipSpacesAppend(x[1..], y);
      assert (x + y)[1..] == x[1..] + y;
    }
  }

  /** Skipping a whitespace run that is followed by something else, or by nothing. */
  lemma {:induction false} SkipRun(w: string, v: string)
    requires AllWhite(w)
    requires v == [] || !IsSpace(v[0])
    ensures SkipSpaces(w + v) == v
  {
    if w == [] {
      assert w + v == v;
    } else {
      SkipRun(w[1..], v);
      assert (w + v)[1..] == w[1..] + v;
    }
  }

  /** A text without whitespace is left as it is by collapsing. */
  lemma {:induction false} CollapseNoWhite(s: string)
    requires forall i :: 0 <= i < |s| ==> !IsSpace(s[i])
    ensures CollapseWhitespace(s) == s
  {
    if s != [] {
      CollapseNoWhite(s[1..]);
    }
  }

  /** A leading whitespace run becomes one space. */
  lemma CollapseLeadingRun(w: string, v: string)
    requires w != [] && AllWhite(w)
    requires v == [] || !IsSpace(v[0])
    ensures CollapseWhitespace(w + v) == " " + CollapseWhitespace(v)
  {
    assert (w + v)[1..] == w[1..] + v;
    SkipRun(w[1..], v);
  }

  /** Collapsing a text that starts with whitespace and ends with something
      else, followed by a run and a rest: the first run is skipped inside the text. */
  lemma CollapseSpaceFirst(u: string, w: string, v: string)
    requires u != [] && IsSpace(u[0]) && !IsSpace(u[|u| - 1])
    ensures var t := SkipSpaces(u[1..]);
      t != [] && !IsSpace(t[|t| - 1]) && |t| < |u| &&
      CollapseWhitespace(u + w + v) == [' '] + CollapseWhitespace(t + w + v) &&
      CollapseWhitespace(u) == [' '] + CollapseWhitespace(t)
  {
    assert (u + w + v)[1..] == u[1..] + (w + v);
    SkipSpacesAppend(u[1..], w + v);
    assert SkipSpaces(u[1..]) + (w + v) == SkipSpaces(u[1..]) + w + v;
  }

  /** Collapsing a text that starts with something other than whitespace,
      followed by a run and a rest. */
  lemma CollapseOtherFirst(u: string, w: string, v: string)
    requires u != [] && !IsSpace(u[0])
    ensures CollapseWhitespace(u + w + v) == [u[0]] + CollapseWhitespace(u[1..] + w + v)
    ensures CollapseWhitespace(u) == [u[0]] + CollapseWhitespace(u[1..])
  {
    assert (u + w + v)[1..] == u[1..] + w + v;
  }

  /** Putting a common head in front of both sides of a split. */
  lemma SplitUnderHead(head: string, whole: string, part: string, inner: string, innerPart: string, rest: string)
    requires whole == head + inner && part == head + innerPart
    requires inner == innerPart + " " + rest
    ensures whole == part + " " + rest
  {
  }

  /** A whitespace run `w` between two texts that do not touch it with
      whitespace of their own becomes exactly one space, in its place. With
      `CollapseNoWhite` this fixes the collapsed text completely. */
  lemma {:induction false} CollapseSplit(u: string, w: string, v: string)
    requires u == [] || !IsSpace(u[|u| - 1])
    requires w != [] && AllWhite(w)
    requires v == [] || !IsSpace(v[0])
    ensures CollapseWhitespace(u + w + v) == CollapseWhitespace(u) + " " + CollapseWhitespace(v)
    decreases |u|, 1
  {
    if u == [] {
      assert u + w + v == w + v;
      CollapseLeadingRun(w, v);
    } else if IsSpace(u[0]) {
      CollapseSplitSpaceFirst(u, w, v);
    } else {
      CollapseSplitOtherFirst(u, w, v);
    }
  }

  lemma {:induction false} CollapseSplitSpaceFirst(u: string, w: string, v: string)
    requires u != [] && IsSpace(u[0]) && !IsSpace(u[|u| - 1])
    requires w != [] && AllWhite(w)
    requires v == [] || !IsSpace(v[0])
    ensures CollapseWhitespace(u + w + v) == CollapseWhitespace(u) + " " + CollapseWhitespace(v)
    decreases |u|, 0
  {
    CollapseSpaceFirst(u, w, v);
    var t := SkipSpaces(u[1..]);
    CollapseSplit(t, w, v);
    SplitUnderHead([' '], CollapseWhitespace(u + w + v), CollapseWhitespace(u),
      CollapseWhitespace(t + w + v), CollapseWhitespace(t), CollapseWhitespace(v));
  }

  lemma {:induction false} CollapseSplitOtherFirst(u: string, w: string, v: string)
    requires u != [] && !IsSpace(u[0]) && !IsSpace(u[|u| - 1])
    requires w != [] && AllWhite(w)
    requires v == [] || !IsSpace(v[0])
    ensures CollapseWhitespace(u + w + v) == CollapseWhitespace(u) + " " + CollapseWhitespace(v)
    decreases |u|, 0
  {
    var tail := u[1..];
    assert tail == [] || tail[|tail| - 1] == u[|u| - 1];
    CollapseOtherFirst(u, w, v);
    CollapseSplit(tail, w, v);
    SplitUnderHead([u[0]], CollapseWhitespace(u + w + v), CollapseWhitespace(u),
      CollapseWhitespace(tail + w + v), CollapseWhitespace(tail), CollapseWhitespace(v));
  }

  /** The filter on one character: kept iff it is a letter or whitespace. */
  lemma KeepOne(c: char)
    ensures KeepLettersAndSpaces([c]) == if IsLetter(c) || IsSpace(c) then [c] else []
  {
    assert [c][1..] == [];
  }

  /** The filter works character by character: filtering a concatenation
      concatenates the filtered parts. With `KeepOne` this fixes the result. */
  lemma {:induction false} KeepAppend(a: string, b: string)
    ensures KeepLettersAndSpaces(a + b) == KeepLettersAndSpaces(a) + KeepLettersAndSpaces(b)
  {
    if a == [] {
      assert a + b == b;
    } else {
      assert (a + b)[1..] == a[1..] + b;
      KeepAppend(a[1..], b);
    }
  }

  /** Cleaning splits at every whitespace run: a run between two parts that do
      not touch it with whitespace of their own becomes one space between the
      cleaned parts. So the words of the cleaned text are separated where the
      input's were. */
  lemma CleanSplit(u: string, w: string, v: string)
    requires u == [] || !IsSpace(u[|u| - 1])
    requires w != [] && AllWhite(w)
    requires v == [] || !IsSpace(v[0])
    ensures CleanTopicText(u + w + v) == CleanTopicText(u) + " " + CleanTopicText(v)
  {
    var lu, lv := Lower(u), Lower(v);
    LowerAppend(u + w, v);
    LowerAppend(u, w);
    assert Lower(w) == w;
    CollapseSplit(lu, w, lv);
    var cu, cv := CollapseWhitespace(lu), CollapseWhitespace(lv);
    KeepAppend(cu + " ", cv);
    KeepAppend(cu, " ");
    KeepOne(' ');
  }

  /** Two words of letters with whitespace between them clean to the two
      words, lower-cased, with one space between them. */
  lemma CleanSeparatesWords(u: string, w: string, v: string)
    requires forall i :: 0 <= i < |u| ==> IsLetter(u[i])
    requires forall i :: 0 <= i < |v| ==> IsLetter(v[i])
    requires u != [] && v != [] && w != [] && AllWhite(w)
    ensures CleanTopicText(u + w + v) == Lower(u) + " " + Lower(v)
  {
    CleanSplit(u, w, v);
    CleanWord(u);
    CleanWord(v);
  }

  /** A word of letters cleans to itself, lower-cased. */
  lemma CleanWord(u: string)
    requires forall i :: 0 <= i < |u| ==> IsLetter(u[i])
    ensures CleanTopicText(u) == Lower(u)
  {
    var lowered := Lower(u);
    assert forall i :: 0 <= i < |lowered| ==> IsLetter(lowered[i]);
    CollapseNoWhite(lowered);
    KeepLetters(lowered);
  }

  /** A text of letters only is kept whole. */
  lemma {:induction false} KeepLetters(s: string)
    requires forall i :: 0 <= i < |s| ==> IsLetter(s[i])
    ensures KeepLettersAndSpaces(s) == s
  {
    if s != [] {
      KeepLetters(s[1..]);
    }
  }

  lemma {:induction false} LowerLetters(s: string)
    ensures Letters(Lower(s)) == Lower(Letters(s))
    ensures SpaceRuns(Lower(s), false) == SpaceRuns(s, false)
  {
    if s != [] {
      LowerLetters(s[1..]);
      assert Lower(s)[1..] == Lower(s[1..]);
      LowerRuns(s[1..], IsSpace(s[0]));
    }
  }

  lemma {:induction false} LowerRuns(s: string, afterSpace: bool)
    ensures SpaceRuns(Lower(s), afterSpace) == SpaceRuns(s, afterSpace)
  {
    if s != [] {
      LowerRuns(s[1..], IsSpace(s[0]));
      assert Lower(s)[1..] == Lower(s[1..]);
    }
  }

  /** Keeping letters and spaces of ". y": the mark goes. */
  lemma KeepAfterMark(mark: char, y: char)
    requires IsLetter(y) && !IsLetter(mark) && !IsSpace(mark)
    ensures KeepLettersAndSpaces([mark, ' ', y]) == [' ', y]
  {
    var s := [mark, ' ', y];
    assert s[1..] == [' ', y] && s[1..][1..] == [y] && [y][1..] == [];
    assert KeepLettersAndSpaces([y]) == [y];
    assert KeepLettersAndSpaces(s[1..]) == [' ', y];
  }

  /** Keeping letters and spaces of "x . y": the mark goes, both spaces stay. */
  lemma KeepAroundMark(x: char, mark: char, y: char)
    requires IsLetter(x) && IsLetter(y) && !IsLetter(mark) && !IsSpace(mark)
    ensures KeepLettersAndSpaces([x, ' ', mark, ' ', y]) == [x, ' ', ' ', y]
  {
    var s := [x, ' ', mark, ' ', y];
    assert s[1..] == [' ', mark, ' ', y] && s[1..][1..] == [mark, ' ', y];
    KeepAfterMark(mark, y);
    assert KeepLettersAndSpaces(s[1..]) == [' ', ' ', y];
  }

  /** "x y" has nothing to drop. */
  lemma KeepPlain(x: char, y: char)
    requires IsLetter(x) && IsLetter(y)
    ensures KeepLettersAndSpaces([x, ' ', y]) == [x, ' ', y]
  {
    var t := [x, ' ', y];
    assert t[1..][1..] == [y] && [y][1..] == [];
    assert KeepLettersAndSpaces([y]) == [y];
    assert KeepLettersAndSpaces(t[1..]) == [' ', y];
  }

  /** Collapsing "x  y" (two spaces) gives "x y". */
  lemma CollapseDoubleSpace(x: char, y: char)
    requires IsLetter(x) && IsLetter(y)
    ensures CollapseWhitespace([x, ' ', ' ', y]) == [x, ' ', y]
  {
    var s := [x, ' ', ' ', y];
    assert s[1..][1..] == [' ', y] && [' ', y][1..] == [y] && [y][1..] == [];
    assert SkipSpaces(s[1..][1..]) == [y];
    assert CollapseWhitespace([y]) == [y];
    assert CollapseWhitespace(s[1..]) == [' ', y];
  }

  /** Collapsing "x . y" changes nothing: its whitespace runs are single spaces. */
  lemma CollapseSingleSpaces(x: char, mark: char, y: char)
    requires IsLetter(x) && IsLetter(y) && !IsSpace(mark)
    ensures CollapseWhitespace([x, ' ', mark, ' ', y]) == [x, ' ', mark, ' ', y]
  {
    var s := [x, ' ', mark, ' ', y];
    assert s[1..][1..][1..][1..] == [y] && [y][1..] == [];
    assert CollapseWhitespace([y]) == [y];
    assert SkipSpaces([y]) == [y];
    assert CollapseWhitespace(s[1..][1..][1..]) == [' ', y];
    assert CollapseWhitespace(s[1..][1..]) == [mark, ' ', y];
    assert SkipSpaces(s[1..][1..]) == s[1..][1..];
    assert CollapseWhitespace(s[1..]) == [' ', mark, ' ', y];
  }

  lemma CleanKeepsBothSpaces(x: char, mark: char, y: char)
    requires IsLowerLetter(x) && IsLowerLetter(y) && !IsLetter(mark) && !IsSpace(mark)
    ensures CleanTopicText([x, ' ', mark, ' ', y]) == [x, ' ', ' ', y]
  {
    assert Lower([x, ' ', mark, ' ', y]) == [x, ' ', mark, ' ', y];
    CollapseSingleSpaces(x, mark, y);
    KeepAroundMark(x, mark, y);
  }

  lemma CleanJoinsSpaces(x: char, y: char)
    requires IsLowerLetter(x) && IsLowerLetter(y)
    ensures CleanTopicText([x, ' ', ' ', y]) == [x, ' ', y]
  {
    assert Lower([x, ' ', ' ', y]) == [x, ' ', ' ', y];
    CollapseDoubleSpace(x, y);
    KeepPlain(x, y);
  }

  /** Dropping punctuation after collapsing can leave two spaces in a row:
      "a . b" cleans to "a  b" (for any two lower-case letters and any mark
      that is neither a letter nor whitespace), and cleaning that again gives
      "a b", so cleaning is not idempotent. */
  lemma CleanCanLeaveDoubleSpace(x: char, mark: char, y: char)
    requires IsLowerLetter(x) && IsLowerLetter(y) && !IsLetter(mark) && !IsSpace(mark)
    ensures CleanTopicText([x, ' ', mark, ' ', y]) == [x, ' ', ' ', y]
    ensures CleanTopicText(CleanTopicText([x, ' ', mark, ' ', y])) == [x, ' ', y]
  {
    CleanKeepsBothSpaces(x, mark, y);
    CleanJoinsSpaces(x, y);
  }

  /** `n_topics = 5 if len(df) >= 7 else min(len(df), 3)`. */
  function TopicCount(rows: nat): (n: nat)
    ensures n <= rows
    ensures rows > 2 ==> (n == 3 <==> rows < 7) && (n == 5 <==> rows >= 7)
    ensures rows <= 2 ==> n == rows
  {
    if rows >= 7 then 5 else if rows <= 3 then rows else 3
  }
}
