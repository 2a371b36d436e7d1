/**
 * The text handling the dispatcher does before any lookup: the `!` gate,
 * removing the prefix, splitting on `\s+` and joining the remainder.
 */
module CommandText {

  const CommandPrefix: char := '!'

  /** The characters the regular-expression class `\s` matches: space, tab, LF, VT, FF, CR. */
  predicate IsWhitespace(c: char) {
    c == ' ' || c == '\t' || c == '\n' || c as int == 0x0B || c as int == 0x0C || c == '\r'
  }

  predicate NoWhitespace(s: string) {
    forall i :: 0 <= i < |s| ==> !IsWhitespace(s[i])
  }

  /** The first index at or after `from` holding whitespace, or `|s|`. */
  function WhitespaceStart(s: string, from: nat): (j: nat)
    requires from <= |s|
    ensures from <= j <= |s|
    ensures forall i :: from <= i < j ==> !IsWhitespace(s[i])
    ensures j < |s| ==> IsWhitespace(s[j])
    decreases |s| - from
  {
    if from == |s| || IsWhitespace(s[from]) then from else WhitespaceStart(s, from + 1)
  }

  /** The end of the whitespace run starting at `from`: the first index at or after it holding a non-whitespace character, or `|s|`. */
  function WhitespaceEnd(s: string, from: nat): (j: nat)
    requires from <= |s|
    ensures from <= j <= |s|
    ensures forall i :: from <= i < j ==> IsWhitespace(s[i])
    ensures j < |s| ==> !IsWhitespace(s[j])
    decreases |s| - from
  {
    if from == |s| || !IsWhitespace(s[from]) then from else WhitespaceEnd(s, from + 1)
  }

  /**
   * `split(Regex("\\s+"))`: the pieces between maximal whitespace runs. An
   * empty piece is kept at the front when the text begins with whitespace
   * and at the back when it ends with whitespace.
   */
  function Split(s: string): (parts: seq<string>)
    ensures |parts| >= 1
    ensures forall i :: 0 <= i < |parts| ==> NoWhitespace(parts[i])
    ensures parts[0] == s[..WhitespaceStart(s, 0)]
    ensures forall i :: 0 < i < |parts| - 1 ==> parts[i] != []
    decreases |s|
  {
    var j := WhitespaceStart(s, 0);
    if j == |s| then [s]
    else
      var e := WhitespaceEnd(s, j);
      var rest := Split(s[e..]);
      assert rest[0] != [] || |rest| == 1 by {
        if e < |s| {
          assert s[e..][0] == s[e];
          assert WhitespaceStart(s[e..], 0) > 0;
        }
      }
      [s[..j]] + rest
  }

  /** `joinToString(separator)`. */
  function Join(parts: seq<string>, separator: string): string {
    if parts == [] then ""
    else if |parts| == 1 then parts[0]
    else parts[0] + separator + Join(parts[1..], separator)
  }

  /** The characters of `s` that are not whitespace, in order. */
  function NonWhitespace(s: string): string {
    if s == [] then []
    else (if IsWhitespace(s[0]) then [] else [s[0]]) + NonWhitespace(s[1..])
  }

  function Concat(parts: seq<string>): string {
    if parts == [] then [] else parts[0] + Concat(parts[1..])
  }

  lemma {:induction false} NonWhitespaceAppend(a: string, b: string)
    ensures NonWhitespace(a + b) == NonWhitespace(a) + NonWhitespace(b)
  {
    if a == [] {
      assert a + b == b;
    } else {
      assert (a + b)[0] == a[0] && (a + b)[1..] == a[1..] + b;
      NonWhitespaceAppend(a[1..], b);
    }
  }

  lemma {:induction false} NonWhitespaceOfPlain(s: string)
    requires NoWhitespace(s)
    ensures NonWhitespace(s) == s
  {
    if s != [] {
      NonWhitespaceOfPlain(s[1..]);
    }
  }

  lemma {:induction false} NonWhitespaceOfBlank(s: string)
    requires forall i :: 0 <= i < |s| ==> IsWhitespace(s[i])
    ensures NonWhitespace(s) == []
  {
    if s != [] {
      NonWhitespaceOfBlank(s[1..]);
    }
  }

  lemma ConcatCons(word: string, rest: seq<string>)
    ensures Concat([word] + rest) == word + Concat(rest)
  {
    assert ([word] + rest)[1..] == rest;
  }

  lemma NonWhitespaceSkipsBlank(gap: string, tail: string)
    requires forall i :: 0 <= i < |gap| ==> IsWhitespace(gap[i])
    ensures NonWhitespace(gap + tail) == NonWhitespace(tail)
  {
    NonWhitespaceAppend(gap, tail);
    NonWhitespaceOfBlank(gap);
  }

  lemma NonWhitespaceKeepsWord(word: string, rest: string)
    requires NoWhitespace(word)
    ensures NonWhitespace(word + rest) == word + NonWhitespace(rest)
  {
    NonWhitespaceAppend(word, rest);
    NonWhitespaceOfPlain(word);
  }

  lemma BlankSlice(s: string, j: nat, e: nat)
    requires j <= e <= |s|
    requires forall i :: j <= i < e ==> IsWhitespace(s[i])
    ensures forall i :: 0 <= i < |s[j..e]| ==> IsWhitespace(s[j..e][i])
  {
    forall i | 0 <= i < |s[j..e]|
      ensures IsWhitespace(s[j..e][i])
    {
      assert s[j..e][i] == s[j + i];
    }
  }

  /** A word, then a whitespace run, then the rest: only the word and the rest's text survive. */
  lemma NonWhitespaceOfWordGap(word: string, gap: string, tail: string)
    requires NoWhitespace(word)
    requires forall i :: 0 <= i < |gap| ==> IsWhitespace(gap[i])
    ensures NonWhitespace(word + gap + tail) == word + NonWhitespace(tail)
  {
    calc {
      NonWhitespace(word + gap + tail);
      { assert word + gap + tail == word + (gap + tail); }
      NonWhitespace(word + (gap + tail));
      { NonWhitespaceKeepsWord(word, gap + tail); }
      word + NonWhitespace(gap + tail);
      { NonWhitespaceSkipsBlank(gap, tail); }
      word + NonWhitespace(tail);
    }
  }

  /** One step of splitting: the first word is kept and the rest is split. */
  lemma SplitStep(s: string)
    requires WhitespaceStart(s, 0) < |s|
    ensures var j := WhitespaceStart(s, 0);
      Concat(Split(s)) == s[..j] + Concat(Split(s[WhitespaceEnd(s, j)..]))
  {
    var j := WhitespaceStart(s, 0);
    var e := WhitespaceEnd(s, j);
    assert Split(s) == [s[..j]] + Split(s[e..]);
    ConcatCons(s[..j], Split(s[e..]));
  }

  /** The text of a word, a whitespace run and the rest is the word and the rest's text. */
  lemma NonWhitespaceStep(s: string)
    requires WhitespaceStart(s, 0) < |s|
    ensures var j := WhitespaceStart(s, 0);
      NonWhitespace(s) == s[..j] + NonWhitespace(s[WhitespaceEnd(s, j)..])
  {
    var j := WhitespaceStart(s, 0);
    var e := WhitespaceEnd(s, j);
    BlankSlice(s, j, e);
    SliceThree(s, j, e);
    NonWhitespaceOfWordGap(s[..j], s[j..e], s[e..]);
  }

  lemma SliceThree(s: string, j: nat, e: nat)
    requires j <= e <= |s|
    ensures s == s[..j] + s[j..e] + s[e..]
  {
    assert s == s[..j] + s[j..];
    assert s[j..] == s[j..e] + s[e..];
  }

  /** Splitting drops the whitespace and nothing else. */
  lemma {:induction false} SplitKeepsText(s: string)
    ensures Concat(Split(s)) == NonWhitespace(s)
    decreases |s|
  {
    var j := WhitespaceStart(s, 0);
    if j == |s| {
      assert s[..j] == s;
      NonWhitespaceOfPlain(s);
      ConcatCons(s, []);
      assert [s] + [] == [s];
    } else {
      var e := WhitespaceEnd(s, j);
      SplitKeepsText(s[e..]);
      SplitStep(s);
      NonWhitespaceStep(s);
    }
  }

  /**
   * Splitting undoes joining with one space, for tokens free of whitespace
   * whose interior members are non-empty.
   */
  lemma {:induction false} SplitJoin(parts: seq<string>)
    requires |parts| >= 1
    requires forall i :: 0 <= i < |parts| ==> NoWhitespace(parts[i])
    requires forall i :: 0 < i < |parts| - 1 ==> parts[i] != []
    ensures Split(Join(parts, " ")) == parts
  {
    var s := Join(parts, " ");
    if |parts| == 1 {
      assert WhitespaceStart(s, 0) == |s|;
    } else {
      var tail := parts[1..];
      var rest := Join(tail, " ");
      assert s == parts[0] + " " + rest;
      JoinStart(tail);
      SplitCons(parts[0], rest);
      SplitJoin(tail);
    }
  }

  /** A join of words whose first word is non-empty, or that is a single word, does not start with whitespace. */
  lemma JoinStart(parts: seq<string>)
    requires |parts| >= 1
    requires forall i :: 0 <= i < |parts| ==> NoWhitespace(parts[i])
    requires |parts| == 1 || parts[0] != []
    ensures Join(parts, " ") == [] || !IsWhitespace(Join(parts, " ")[0])
  {
    if parts[0] != [] {
      JoinHead(parts, " ");
    }
  }

  /** One word, one space and a text that does not start with whitespace split into that word and the text's own words. */
  lemma SplitCons(p: string, rest: string)
    requires NoWhitespace(p)
    requires rest == [] || !IsWhitespace(rest[0])
    ensures Split(p + " " + rest) == [p] + Split(rest)
  {
    var s := p + " " + rest;
    assert forall i :: 0 <= i < |p| ==> s[i] == p[i];
    assert s[|p|] == ' ';
    WhitespaceStartPlain(s, 0, |p|);
    assert s[..|p|] == p;
    assert s[|p| + 1..] == rest;
    assert WhitespaceEnd(s, |p|) == WhitespaceEnd(s, |p| + 1);
    if |p| + 1 < |s| {
      assert s[|p| + 1] == rest[0];
    }
  }

  /** The text with each maximal run of whitespace replaced by a single space. */
  function Collapse(s: string): string
    decreases |s|
  {
    if s == [] then []
    else if IsWhitespace(s[0]) then
      var e := WhitespaceEnd(s, 0);
      assert e > 0;
      " " + Collapse(s[e..])
    else [s[0]] + Collapse(s[1..])
  }

  lemma {:induction false} CollapsePlain(s: string)
    requires NoWhitespace(s)
    ensures Collapse(s) == s
  {
    if s != [] {
      CollapsePlain(s[1..]);
    }
  }

  lemma {:induction false} WhitespaceEndShift(s: string, from: nat)
    requires 1 <= from <= |s|
    ensures WhitespaceEnd(s[1..], from - 1) == WhitespaceEnd(s, from) - 1
    decreases |s| - from
  {
    if from < |s| && IsWhitespace(s[from]) {
      assert s[1..][from - 1] == s[from];
      WhitespaceEndShift(s, from + 1);
    } else if from < |s| {
      assert s[1..][from - 1] == s[from];
    }
  }

  /** A word, then a whitespace run: the word is kept and the run becomes one space. */
  lemma {:induction false} CollapseWordGap(s: string, j: nat)
    requires j < |s| && IsWhitespace(s[j])
    requires forall i :: 0 <= i < j ==> !IsWhitespace(s[i])
    ensures Collapse(s) == s[..j] + " " + Collapse(s[WhitespaceEnd(s, j)..])
  {
    var e := WhitespaceEnd(s, j);
    if j == 0 {
      assert s[..0] + " " == " ";
    } else {
      var t := s[1..];
      assert t[j - 1] == s[j];
      forall i | 0 <= i < j - 1
        ensures !IsWhitespace(t[i])
      {
        assert t[i] == s[i + 1];
      }
      CollapseWordGap(t, j - 1);
      WhitespaceEndShift(s, j);
      assert t[e - 1..] == s[e..];
      var rest := Collapse(s[e..]);
      assert Collapse(t) == t[..j - 1] + " " + rest;
      CollapseWordStart(s);
      assert s[..j] == [s[0]] + t[..j - 1];
      assert [s[0]] + (t[..j - 1] + " " + rest) == ([s[0]] + t[..j - 1]) + " " + rest;
    }
  }

  lemma CollapseWordStart(s: string)
    requires s != [] && !IsWhitespace(s[0])
    ensures Collapse(s) == [s[0]] + Collapse(s[1..])
  {
  }

  /** `joinToString` of a head and a non-empty rest puts one separator between them. */
  lemma JoinCons(head: string, rest: seq<string>, separator: string)
    requires |rest| >= 1
    ensures Join([head] + rest, separator) == head + separator + Join(rest, separator)
  {
    assert ([head] + rest)[1..] == rest;
  }

  /**
   * Joining the pieces of a split with single spaces gives the text with
   * each whitespace run collapsed to one space. Since no piece holds
   * whitespace, this fixes where every piece begins and ends.
   */
  lemma {:induction false} SplitCollapse(s: string)
    ensures Join(Split(s), " ") == Collapse(s)
    decreases |s|
  {
    var j := WhitespaceStart(s, 0);
    if j == |s| {
      assert s[..j] == s;
      CollapsePlain(s);
    } else {
      var e := WhitespaceEnd(s, j);
      assert Split(s) == [s[..j]] + Split(s[e..]);
      SplitCollapse(s[e..]);
      JoinCons(s[..j], Split(s[e..]), " ");
      CollapseWordGap(s, j);
    }
  }

  lemma WhitespaceStartPlain(s: string, from: nat, j: nat)
    requires from <= j < |s| && IsWhitespace(s[j])
    requires forall i :: from <= i < j ==> !IsWhitespace(s[i])
    ensures WhitespaceStart(s, from) == j
    decreases j - from
  {
    if from < j {
      WhitespaceStartPlain(s, from + 1, j);
    }
  }

  /** A joined text with a non-empty first token starts with that token's first character. */
  lemma JoinHead(parts: seq<string>, separator: string)
    requires |parts| >= 1 && parts[0] != []
    ensures Join(parts, separator) != [] && Join(parts, separator)[0] == parts[0][0]
  {
  }

  /** `replace("!", "")`: every `!` removed. */
  function RemovePrefixChars(s: string): (r: string)
    ensures r == [] <==> forall i :: 0 <= i < |s| ==> s[i] == CommandPrefix
  {
    if s == [] then []
    else (if s[0] == CommandPrefix then [] else [s[0]]) + RemovePrefixChars(s[1..])
  }

  /** `replaceFirst("!", "")`: the first `!` removed. */
  function RemoveFirstPrefix(s: string): (r: string)
    ensures CommandPrefix !in s ==> r == s
    ensures CommandPrefix in s ==> |r| == |s| - 1
    ensures |s| > 0 && s[0] == CommandPrefix ==> r == s[1..]
  {
    if s == [] then []
    else if s[0] == CommandPrefix then s[1..]
    else [s[0]] + RemoveFirstPrefix(s[1..])
  }

  /** The character removed is the first `!`: the text before it is kept, and so is all the text after it. */
  lemma {:induction false} RemoveFirstPrefixMeaning(s: string, i: nat)
    requires i < |s| && s[i] == CommandPrefix && CommandPrefix !in s[..i]
    ensures RemoveFirstPrefix(s) == s[..i] + s[i + 1..]
  {
    if i > 0 {
      var t := s[1..];
      assert s[0] == s[..i][0];
      assert t[..i - 1] == s[..i][1..];
      assert t[i - 1] == s[i];
      RemoveFirstPrefixMeaning(t, i - 1);
      assert s[..i] == [s[0]] + t[..i - 1];
      assert t[i..] == s[i + 1..];
    }
  }

  /** Text the dispatcher acts on: it starts with `!` and is not made of `!`s alone. */
  predicate IsCommandText(text: string) {
    |text| > 0 && text[0] == CommandPrefix && RemovePrefixChars(text) != []
  }

  /** The tokens after the leading `!`: the command name first, then the parameter inputs. */
  function CommandParts(text: string): (parts: seq<string>)
    ensures |parts| >= 1
  {
    Split(RemoveFirstPrefix(text))
  }

  /** The name is the first run of non-whitespace right after the `!`, and nothing in the parts is whitespace. */
  lemma CommandPartsOfCommandText(text: string)
    requires |text| > 0 && text[0] == CommandPrefix
    ensures var parts := CommandParts(text);
            && parts[0] == text[1..][..WhitespaceStart(text[1..], 0)]
            && Concat(parts) == NonWhitespace(text[1..])
  {
    assert RemoveFirstPrefix(text) == text[1..];
    SplitKeepsText(text[1..]);
  }

  /** `!` followed by a join of tokens gives back exactly those tokens. */
  lemma CommandPartsOfJoin(parts: seq<string>)
    requires |parts| >= 1
    requires forall i :: 0 <= i < |parts| ==> NoWhitespace(parts[i])
    requires forall i :: 0 < i < |parts| - 1 ==> parts[i] != []
    ensures CommandParts([CommandPrefix] + Join(parts, " ")) == parts
  {
    var text := [CommandPrefix] + Join(parts, " ");
    assert RemoveFirstPrefix(text) == text[1..] == Join(parts, " ");
    SplitJoin(parts);
  }
}
