/**
 The file name an article is saved under (line 93):

   re.sub(r"\$\\.*{([^}]*)}\$", r"\g<1>", title).replace(" ", "_").replace("$", "") + ".pdf"

 The first step replaces TeX markup such as `$\mathrm{H}$` by what stands
 between its braces. It is modelled with Python's `re` semantics: `re.sub`
 scans left to right and replaces leftmost, non-overlapping matches; `.`
 matches any character but a newline and `.*` is greedy, so of all the `{`
 the pattern could use, it takes the rightmost one for which the rest of
 the pattern matches; `[^}]*` runs to the first `}`, which must be followed
 by `$`.

 Written this way the pattern can swallow the text between two markup spans
 of one title. `Letters` is the reading with the command name restricted to
 ASCII letters, which replaces every span by its group; `NewTitle` uses it
 and `NewTitleAsWritten` keeps the pattern of the source.
 */
module Filenames {
  import opened Wrappers
  import opened Text

  /** The two readings of the markup pattern. */
  datatype Pattern =
    | Greedy   // `\$\\.*{([^}]*)}\$`, as line 93 writes it
    | Letters  // `\$\\[A-Za-z]*{([^}]*)}\$`

  predicate IsLetter(c: char) {
    'A' <= c <= 'Z' || 'a' <= c <= 'z'
  }

  /** The first index at or after `i` that holds `ch`; |s| when there is none. */
  function IndexOf(s: string, ch: char, i: nat): (j: nat)
    requires i <= |s|
    ensures i <= j <= |s| && (j < |s| ==> s[j] == ch)
    ensures forall k :: i <= k < j ==> s[k] != ch
    decreases |s| - i
  {
    if i == |s| || s[i] == ch then i else IndexOf(s, ch, i + 1)
  }

  /** The end of the run of letters that starts at `i`. */
  function SkipLetters(s: string, i: nat): (j: nat)
    requires i <= |s|
    ensures i <= j <= |s| && (j < |s| ==> !IsLetter(s[j]))
    ensures forall k :: i <= k < j ==> IsLetter(s[k])
    decreases |s| - i
  {
    if i == |s| || !IsLetter(s[i]) then i else SkipLetters(s, i + 1)
  }

  /** `{([^}]*)}\$` matches from `q`: a `{` at q, the first `}` after it at c,
      and a `$` right after that. */
  ghost predicate ClosesAt(s: string, q: int, c: int) {
    && 0 <= q < c && c + 1 < |s|
    && s[q] == '{' && s[c] == '}' && s[c + 1] == '$'
    && forall k :: q < k < c ==> s[k] != '}'
  }

  /** The command part s[p+2..q] of a match at p fits the pattern. */
  ghost predicate CommandFits(pat: Pattern, s: string, p: int, q: int)
    requires 0 <= p && q <= |s|
  {
    match pat
    case Greedy => forall k :: p + 2 <= k < q ==> s[k] != '\n'
    case Letters => forall k :: p + 2 <= k < q ==> IsLetter(s[k])
  }

  /** The pattern matches s[p..c+2] with its `{` at q, and so its group is s[q+1..c]. */
  ghost predicate Matches(pat: Pattern, s: string, p: int, q: int, c: int) {
    && 0 <= p && p + 2 <= q < |s|
    && s[p] == '$' && s[p + 1] == '\\'
    && CommandFits(pat, s, p, q) && ClosesAt(s, q, c)
  }

  /** Where the group opened at q closes, when `{([^}]*)}\$` matches there. */
  function CloseAt(s: string, q: nat): (c: Option<nat>)
    requires q < |s|
    ensures c.Some? ==> ClosesAt(s, q, c.value)
    ensures forall c' :: ClosesAt(s, q, c') ==> c == Some(c')
  {
    if s[q] != '{' then None
    else
      var c := IndexOf(s, '}', q + 1);
      if c + 1 < |s| && s[c + 1] == '$' then Some(c) else None
  }

  /** Greedy backtracking of `.*`: tries the `{` positions q, q-1, ..., p+2
      in turn and takes the first at which the rest of the pattern matches. */
  function GreedyFrom(s: string, p: nat, q: int): (m: Option<(nat, nat)>)
    requires q < |s|
    ensures m.Some? ==> p + 2 <= m.value.0 <= q && ClosesAt(s, m.value.0, m.value.1)
    ensures forall q', c' :: p + 2 <= q' <= q && ClosesAt(s, q', c') ==> m.Some? && q' <= m.value.0
    decreases q
  {
    if q < p + 2 then None
    else
      match CloseAt(s, q)
      case Some(c) => Some((q, c))
      case None => GreedyFrom(s, p, q - 1)
  }

  /** The match of the pattern that starts at p, as the `{` position and the
      `}` position; None when the pattern does not match at p. */
  function MatchAt(pat: Pattern, s: string, p: nat): (m: Option<(nat, nat)>)
    ensures m.Some? ==> Matches(pat, s, p, m.value.0, m.value.1)
  {
    if p + 1 < |s| && s[p] == '$' && s[p + 1] == '\\' then
      match pat
      case Greedy =>
        GreedyFrom(s, p, IndexOf(s, '\n', p + 2) - 1)
      case Letters =>
        var q := SkipLetters(s, p + 2);
        if q < |s| && CloseAt(s, q).Some? then Some((q, CloseAt(s, q).value)) else None
    else None
  }

  /** MatchAt is Python's choice: it finds a match exactly when there is
      one at p, and of all of them the one whose `{` lies furthest to the
      right (for Letters there is only one). */
  lemma MatchAtIsGreedy(pat: Pattern, s: string, p: nat, q: int, c: int)
    requires Matches(pat, s, p, q, c)
    ensures MatchAt(pat, s, p).Some? && q <= MatchAt(pat, s, p).value.0
    ensures pat == Letters ==> MatchAt(pat, s, p) == Some((q, c))
  {
    match pat
    case Greedy =>
      assert q < IndexOf(s, '\n', p + 2);
    case Letters =>
      assert SkipLetters(s, p + 2) == q;
  }

  /** `re.sub(pattern, r"\g<1>", s[i..])` */
  function SubFrom(pat: Pattern, s: string, i: nat): (r: string)
    requires i <= |s|
    ensures |r| <= |s| - i
    decreases |s| - i
  {
    if i == |s| then []
    else
      var m := MatchAt(pat, s, i);
      if m.Some? then s[m.value.0 + 1..m.value.1] + SubFrom(pat, s, m.value.1 + 2)
      else [s[i]] + SubFrom(pat, s, i + 1)
  }

  function Sub(pat: Pattern, s: string): string {
    SubFrom(pat, s, 0)
  }

  /** Without a `{` the pattern never matches and the text is left as it is. */
  lemma {:induction false} SubWithoutBrace(pat: Pattern, s: string, i: nat)
    requires i <= |s| && forall k :: i <= k < |s| ==> s[k] != '{'
    ensures SubFrom(pat, s, i) == s[i..]
    decreases |s| - i
  {
    if i < |s| {
      assert MatchAt(pat, s, i).None?;
      SubWithoutBrace(pat, s, i + 1);
      assert s[i..] == [s[i]] + s[i + 1..];
    }
  }

  lemma MarkupCountsSplit(s: string, i: nat, q: nat, c: nat, d: char)
    requires Matches(Letters, s, i, q, c)
    requires !IsLetter(d) && d != '$' && d != '\\' && d != '{' && d != '}'
    ensures Count(d, s[i..]) == Count(d, s[q + 1..c]) + Count(d, s[c + 2..])
  {
    var head, group, close, rest := s[i..q + 1], s[q + 1..c], s[c..c + 2], s[c + 2..];
    assert s[i..] == head + (group + (close + rest));
    assert forall k :: 0 <= k < |head| ==> head[k] == s[i + k];
    CountAbsent(d, head);
    CountAbsent(d, close);
    CountConcat(d, close, rest);
    CountConcat(d, group, close + rest);
    CountConcat(d, head, group + (close + rest));
  }

  /** With the command name restricted to letters, the markup step deletes
      only `$`, `\`, letters, `{` and `}`: every other character, spaces and
      underscores among them, occurs as often after it as before. */
  lemma {:induction false} SubLettersKeepsCount(s: string, i: nat, d: char)
    requires i <= |s|
    requires !IsLetter(d) && d != '$' && d != '\\' && d != '{' && d != '}'
    ensures Count(d, SubFrom(Letters, s, i)) == Count(d, s[i..])
    decreases |s| - i, 1
  {
    if i == |s| {
      assert s[i..] == [];
    } else if MatchAt(Letters, s, i).Some? {
      MatchedKeepsCount(s, i, d);
    } else {
      UnmatchedKeepsCount(s, i, d);
    }
  }

  lemma {:induction false} MatchedKeepsCount(s: string, i: nat, d: char)
    requires i < |s| && MatchAt(Letters, s, i).Some?
    requires !IsLetter(d) && d != '$' && d != '\\' && d != '{' && d != '}'
    ensures Count(d, SubFrom(Letters, s, i)) == Count(d, s[i..])
    decreases |s| - i, 0
  {
    var q, c := MatchAt(Letters, s, i).value.0, MatchAt(Letters, s, i).value.1;
    var tail := SubFrom(Letters, s, c + 2);
    assert SubFrom(Letters, s, i) == s[q + 1..c] + tail;
    SubLettersKeepsCount(s, c + 2, d);
    CountConcat(d, s[q + 1..c], tail);
    MarkupCountsSplit(s, i, q, c, d);
  }

  lemma {:induction false} UnmatchedKeepsCount(s: string, i: nat, d: char)
    requires i < |s| && MatchAt(Letters, s, i).None?
    requires !IsLetter(d) && d != '$' && d != '\\' && d != '{' && d != '}'
    ensures Count(d, SubFrom(Letters, s, i)) == Count(d, s[i..])
    decreases |s| - i, 0
  {
    var tail := SubFrom(Letters, s, i + 1);
    assert SubFrom(Letters, s, i) == [s[i]] + tail;
    SubLettersKeepsCount(s, i + 1, d);
    CountConcat(d, [s[i]], tail);
    assert s[i..] == [s[i]] + s[i + 1..];
    CountConcat(d, [s[i]], s[i + 1..]);
  }

  /** Python's `str.replace(" ", "_").replace("$", "") + ".pdf"` */
  function Sanitize(x: string): string {
    RemoveChar(ReplaceChar(x, ' ', '_'), '$') + ".pdf"
  }

  /** The name always ends in ".pdf"; before it there is no space and no
      `$`: the `$`s are gone and each space left becomes `_`. That every
      other character stays, in order, is `RemoveCharConcat` with
      `RemoveCharOne` for the deletion and `ReplaceChar`'s own contract for
      the replacement. */
  lemma SanitizeShape(x: string)
    ensures var r := Sanitize(x); |r| >= 4 && r[|r| - 4..] == ".pdf"
    ensures var r := Sanitize(x); var stem := r[..|r| - 4];
      && stem == ReplaceChar(RemoveChar(x, '$'), ' ', '_')
      && (forall k :: 0 <= k < |stem| ==> stem[k] != ' ' && stem[k] != '$')
      && |stem| == |x| - Count('$', x)
      && Count('_', stem) == Count('_', x) + Count(' ', x)
  {
    var r := Sanitize(x);
    var stem := RemoveChar(ReplaceChar(x, ' ', '_'), '$');
    assert r[..|r| - 4] == stem && r[|r| - 4..] == ".pdf";
    ReplaceRemoveCommute(x, ' ', '_', '$');
    ReplaceCharCounts(x, ' ', '_', '$');
    RemoveCharCounts(ReplaceChar(x, ' ', '_'), '$', '_');
    ReplaceCharCounts(x, ' ', '_', '_');
  }

  /** The name an article is saved under, markup spans replaced one by one. */
  function NewTitle(title: string): string {
    Sanitize(Sub(Letters, title))
  }

  /** The file name ends in ".pdf"; before it there is no space and no `$`,
      it is no longer than the title, and it has one `_` for every `_` and
      every space of the title. */
  lemma NewTitleShape(title: string)
    ensures var r := NewTitle(title); |r| >= 4 && r[|r| - 4..] == ".pdf"
    ensures var r := NewTitle(title); var stem := r[..|r| - 4];
      && |stem| <= |title|
      && (forall k :: 0 <= k < |stem| ==> stem[k] != ' ' && stem[k] != '$')
      && Count('_', stem) == Count('_', title) + Count(' ', title)
  {
    var m := Sub(Letters, title);
    SanitizeShape(m);
    SubLettersKeepsCount(title, 0, '_');
    SubLettersKeepsCount(title, 0, ' ');
    assert title[0..] == title;
  }

  /** The name line 93 computes. */
  function NewTitleAsWritten(title: string): string {
    Sanitize(Sub(Greedy, title))
  }

  /** The name line 93 computes ends in ".pdf"; before it there is no space
      and no `$`, it is no longer than the title, and it is the markup step's
      output with its `$`s deleted and its spaces turned into `_`. */
  lemma NewTitleAsWrittenShape(title: string)
    ensures var r := NewTitleAsWritten(title); |r| >= 4 && r[|r| - 4..] == ".pdf"
    ensures var r := NewTitleAsWritten(title); var stem := r[..|r| - 4];
      && stem == ReplaceChar(RemoveChar(Sub(Greedy, title), '$'), ' ', '_')
      && |stem| <= |title|
      && (forall k :: 0 <= k < |stem| ==> stem[k] != ' ' && stem[k] != '$')
  {
    SanitizeShape(Sub(Greedy, title));
  }

  /** Two markup spans on one title, as written: the greedy `.*` runs from
      the first `$\` to the last `{`, and the first span and the text
      between the spans are lost. */
  lemma GreedyMergesSpans(title: string)
    requires title == "$\\a{A}$ $\\b{B}$"
    ensures Sub(Greedy, title) == "B"
    ensures NewTitleAsWritten(title) == "B.pdf"
  {
    var s := title;
    assert |s| == 15;
    assert IndexOf(s, '\n', 2) == 15;
    assert CloseAt(s, 14).None? && CloseAt(s, 13).None? && CloseAt(s, 12).None?;
    assert IndexOf(s, '}', 12) == 13;
    assert CloseAt(s, 11) == Some(13);
    assert GreedyFrom(s, 0, 14) == Some((11, 13));
    assert MatchAt(Greedy, s, 0) == Some((11, 13));
    assert SubFrom(Greedy, s, 15) == [];
    assert s[12..13] == "B";
    assert Sanitize("B") == "B.pdf";
  }

  lemma LettersSecondSpan(s: string)
    requires s == "$\\a{A}$ $\\b{B}$"
    ensures SubFrom(Letters, s, 7) == " B"
  {
    assert |s| == 15;
    assert MatchAt(Letters, s, 7).None?;
    assert SkipLetters(s, 10) == 11;
    assert IndexOf(s, '}', 12) == 13;
    assert MatchAt(Letters, s, 8) == Some((11, 13));
    assert SubFrom(Letters, s, 8) == "B";
  }

  lemma LettersBothSpans(s: string)
    requires s == "$\\a{A}$ $\\b{B}$"
    ensures Sub(Letters, s) == "A B"
  {
    assert |s| == 15;
    assert SkipLetters(s, 2) == 3;
    assert IndexOf(s, '}', 4) == 5;
    assert MatchAt(Letters, s, 0) == Some((3, 5));
    LettersSecondSpan(s);
    assert s[4..5] == "A";
  }

  /** The same title with the command name restricted to letters: each span
      is replaced by its group and the space between them is kept. */
  lemma LettersKeepsSpans(title: string)
    requires title == "$\\a{A}$ $\\b{B}$"
    ensures Sub(Letters, title) == "A B"
    ensures NewTitle(title) == "A_B.pdf"
  {
    LettersBothSpans(title);
    assert ReplaceChar("A B", ' ', '_') == "A_B";
  }
}
