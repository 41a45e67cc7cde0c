/** The string helpers of static/app.js: `trimRight`, the prefix the undo
    button goes back to, the display form of a suggested token, and
    `String.prototype.split` with a one-character separator (used by
    `loadFromUrl`). A JavaScript string is modelled as a sequence of Unicode
    scalar values rather than UTF-16 code units. */
module Text {

  /** Every character of s is a space ' ' (U+0020). */
  predicate AllSpaces(s: string) {
    forall i | 0 <= i < |s| :: s[i] == ' '
  }

  /** `str.replace(/ +$/, '')`: removes the maximal trailing run of spaces.
      Only ' ' is removed; tabs and line breaks are kept. */
  function TrimRight(s: string): (r: string)
    ensures r <= s
    ensures AllSpaces(s[|r|..])
    ensures r == [] || r[|r| - 1] != ' '
  {
    if |s| > 0 && s[|s| - 1] == ' ' then TrimRight(s[..|s| - 1]) else s
  }

  /** The three properties in TrimRight's contract determine its result. */
  lemma {:induction false} TrimRightUnique(s: string, t: string)
    requires t <= s && AllSpaces(s[|t|..])
    requires t == [] || t[|t| - 1] != ' '
    ensures t == TrimRight(s)
  {
  }

  lemma TrimRightIdempotent(s: string)
    ensures TrimRight(TrimRight(s)) == TrimRight(s)
  {
  }

  /** The trimmed text is empty exactly when the text is only spaces (or empty). */
  lemma TrimRightEmpty(s: string)
    ensures TrimRight(s) == [] <==> AllSpaces(s)
  {
  }

  /** `s.lastIndexOf(c)`: the position of the last c in s, or -1 if there is none. */
  function LastIndexOf(s: string, c: char): (k: int)
    ensures -1 <= k < |s|
    ensures k >= 0 ==> s[k] == c
    ensures forall j | k < j < |s| :: s[j] != c
  {
    if |s| == 0 then -1
    else if s[|s| - 1] == c then |s| - 1
    else LastIndexOf(s[..|s| - 1], c)
  }

  /** The prefix the undo button (`goBack` in `Choices`) goes back to: the
      sentence cut before its last space, or "" when the last space is at
      position 0 or there is none. */
  function UndoPrefix(output: string): (prefix: string)
    ensures prefix <= output
    ensures prefix != [] ==>
      |prefix| < |output| && output[|prefix|] == ' ' &&
      forall j | |prefix| < j < |output| :: output[j] != ' '
    ensures prefix == [] <==> forall j | 0 < j < |output| :: output[j] != ' '
  {
    var lastSpace := LastIndexOf(output, ' ');
    if lastSpace > 0 then output[..lastSpace] else ""
  }

  /** The marker a '\n' in a suggested token is displayed as. */
  const ReturnSymbol: char := '\U{21B5}'

  /** `word.replace(/\n/g, "↵")`: the display form of a token. The token
      itself is kept unmodified in the state. */
  function CleanWord(word: string): (shown: string)
    ensures |shown| == |word|
    ensures forall i | 0 <= i < |word| ::
      shown[i] == if word[i] == '\n' then ReturnSymbol else word[i]
  {
    if word == [] then []
    else (if word[0] == '\n' then [ReturnSymbol] else [word[0]]) + CleanWord(word[1..])
  }

  /** The display form holds no '\n' (a '\r' or U+2028 is kept), and
      cleaning it again changes nothing. */
  lemma CleanWordDisplayable(word: string)
    ensures '\n' !in CleanWord(word)
    ensures CleanWord(CleanWord(word)) == CleanWord(word)
  {
    var shown := CleanWord(word);
    assert forall i | 0 <= i < |shown| :: shown[i] != '\n';
  }

  /** The pieces of a split joined back with the separator. */
  function Join(pieces: seq<string>, sep: char): string
    requires |pieces| >= 1
  {
    if |pieces| == 1 then pieces[0] else pieces[0] + [sep] + Join(pieces[1..], sep)
  }

  /** `s.split(sep)` for a one-character separator: the maximal
      separator-free runs of s, in order; never an empty array. */
  function Split(s: string, sep: char): (pieces: seq<string>)
    ensures |pieces| >= 1
    ensures Join(pieces, sep) == s
    ensures forall i | 0 <= i < |pieces| :: sep !in pieces[i]
  {
    if s == [] then [[]]
    else
      var rest := Split(s[1..], sep);
      if s[0] == sep then [[]] + rest
      else [[s[0]] + rest[0]] + rest[1..]
  }

  /** Split undoes Join when no piece holds the separator. */
  lemma {:induction false} SplitJoin(pieces: seq<string>, sep: char)
    requires |pieces| >= 1
    requires forall i | 0 <= i < |pieces| :: sep !in pieces[i]
    ensures Split(Join(pieces, sep), sep) == pieces
  {
    if |pieces| == 1 {
      SplitPiece(pieces[0], sep);
    } else {
      SplitJoin(pieces[1..], sep);
      SplitAfterPiece(pieces[0], Join(pieces[1..], sep), sep);
    }
  }

  /** A separator-free string splits into itself. */
  lemma {:induction false} SplitPiece(p: string, sep: char)
    requires sep !in p
    ensures Split(p, sep) == [p]
  {
    if p != [] {
      SplitPiece(p[1..], sep);
    }
  }

  /** A separator-free string followed by the separator becomes the first piece. */
  lemma {:induction false} SplitAfterPiece(p: string, t: string, sep: char)
    requires sep !in p
    ensures Split(p + [sep] + t, sep) == [p] + Split(t, sep)
  {
    if p == [] {
      assert ([sep] + t)[1..] == t;
    } else {
      var s := p + [sep] + t;
      SplitAfterPiece(p[1..], t, sep);
      assert s[0] == p[0] && s[1..] == p[1..] + [sep] + t;
      assert [p[0]] + p[1..] == p;
    }
  }
}
