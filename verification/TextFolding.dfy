/**
 Case folding and white-space collapsing of directory strings
 (src/ltv/name_constraints.rs, `normalize_directory_string`).
 */
module TextFolding {
  import opened Results
  import opened Der

  /** The parts of Rust's `char` and `str` the code relies on. */
  datatype UnicodeTables = UnicodeTables(
    isWhitespace: char -> bool,
    toLowercase: char -> string,
    decodeNonAscii: Bytes -> Option<string>)

  /** Every text character lower-cases to at least one character and to no white space. */
  ghost predicate LawfulTables(u: UnicodeTables) {
    && u.isWhitespace(' ')
    && forall c :: !u.isWhitespace(c) ==>
         u.toLowercase(c) != [] && forall d <- u.toLowercase(c) :: !u.isWhitespace(d)
  }

  type Unicode = u: UnicodeTables | LawfulTables(u)
    witness UnicodeTables(c => c == ' ', c => [c], b => None)

  predicate IsAscii(b: Bytes) {
    forall i :: 0 <= i < |b| ==> b[i] < 128
  }

  /** UTF-8 decoding; an ASCII byte stands for itself. */
  function DecodeText(u: Unicode, b: Bytes): Option<string> {
    if IsAscii(b) then Some(seq(|b|, i requires 0 <= i < |b| => b[i] as char)) else u.decodeNonAscii(b)
  }

  // ----- words -----

  /** A non-empty stretch of text without white space. */
  ghost predicate IsWord(u: Unicode, w: string) {
    w != [] && forall c <- w :: !u.isWhitespace(c)
  }

  /** The maximal stretches of text without white space, in order. */
  function Words(u: Unicode, s: string): (ws: seq<string>)
    ensures s != [] && !u.isWhitespace(s[|s| - 1]) ==> ws != []
    ensures forall w <- ws :: IsWord(u, w)
  {
    if s == [] then []
    else
      var init, c := s[..|s| - 1], s[|s| - 1];
      var ws := Words(u, init);
      if u.isWhitespace(c) then ws
      else if init == [] || u.isWhitespace(init[|init| - 1]) then ws + [[c]]
      else
        assert ws[|ws| - 1] in ws;
        ws[..|ws| - 1] + [ws[|ws| - 1] + [c]]
  }

  function LowerWord(u: Unicode, w: string): string {
    if w == [] then [] else LowerWord(u, w[..|w| - 1]) + u.toLowercase(w[|w| - 1])
  }

  function LowerWords(u: Unicode, ws: seq<string>): (r: seq<string>)
    ensures |r| == |ws|
  {
    if ws == [] then [] else LowerWords(u, ws[..|ws| - 1]) + [LowerWord(u, ws[|ws| - 1])]
  }

  /** The words separated by single spaces. */
  function Join(ws: seq<string>): string {
    if ws == [] then []
    else if |ws| == 1 then ws[0]
    else Join(ws[..|ws| - 1]) + [' '] + ws[|ws| - 1]
  }

  /** The comparison form of a directory string: its lower-cased words, joined. */
  function Fold(u: Unicode, s: string): string {
    Join(LowerWords(u, Words(u, s)))
  }

  // ----- the folding loop -----

  lemma {:induction false} LowerWordIsWord(u: Unicode, w: string)
    requires IsWord(u, w)
    ensures IsWord(u, LowerWord(u, w))
  {
    var init, c := w[..|w| - 1], w[|w| - 1];
    assert c in w;
    if init != [] {
      assert forall d <- init :: d in w;
      LowerWordIsWord(u, init);
    }
  }

  lemma {:induction false} LowerWordsAreWords(u: Unicode, ws: seq<string>)
    requires forall w <- ws :: IsWord(u, w)
    ensures forall w <- LowerWords(u, ws) :: IsWord(u, w)
  {
    if ws != [] {
      assert ws[|ws| - 1] in ws;
      assert forall w <- ws[..|ws| - 1] :: w in ws;
      LowerWordsAreWords(u, ws[..|ws| - 1]);
      LowerWordIsWord(u, ws[|ws| - 1]);
    }
  }

  lemma {:induction false} JoinIsEmptyOnlyForNoWords(u: Unicode, ws: seq<string>)
    requires forall w <- ws :: IsWord(u, w)
    ensures Join(ws) == [] <==> ws == []
  {
    if |ws| == 1 {
      assert ws[0] in ws;
    }
  }

  lemma {:induction false} JoinStartsWord(ws: seq<string>, w: string)
    ensures Join(ws + [w]) == if ws == [] then w else Join(ws) + [' '] + w
  {
    assert (ws + [w])[..|ws|] == ws;
  }

  lemma {:induction false} JoinExtendsWord(init: seq<string>, last: string, more: string)
    ensures Join(init + [last + more]) == Join(init + [last]) + more
  {
    JoinStartsWord(init, last);
    JoinStartsWord(init, last + more);
    ConcatAssociates(Join(init) + [' '], last, more);
  }

  lemma {:induction false} ConcatAssociates(a: string, b: string, c: string)
    ensures a + (b + c) == a + b + c
  {
  }

  lemma {:induction false} LowerWordsSnoc(u: Unicode, ws: seq<string>, w: string)
    ensures LowerWords(u, ws + [w]) == LowerWords(u, ws) + [LowerWord(u, w)]
  {
    assert (ws + [w])[..|ws|] == ws;
  }

  lemma {:induction false} LowerWordSnoc(u: Unicode, w: string, c: char)
    ensures LowerWord(u, w + [c]) == LowerWord(u, w) + u.toLowercase(c)
  {
    assert (w + [c])[..|w|] == w;
  }

  lemma {:induction false} WordsSnoc(u: Unicode, s: string, c: char)
    requires !u.isWhitespace(c)
    ensures Words(u, s + [c]) ==
            if s == [] || u.isWhitespace(s[|s| - 1]) then Words(u, s) + [[c]]
            else Words(u, s)[..|Words(u, s)| - 1] + [Words(u, s)[|Words(u, s)| - 1] + [c]]
  {
    assert (s + [c])[..|s|] == s;
  }

  lemma {:induction false} FoldedListGains(u: Unicode, ws: seq<string>, c: char)
    requires forall w <- ws :: IsWord(u, w)
    ensures var out := Join(LowerWords(u, ws));
            Join(LowerWords(u, ws + [[c]])) == (if out != [] then out + [' '] else out) + u.toLowercase(c)
  {
    var lower := LowerWords(u, ws);
    LowerWordsAreWords(u, ws);
    JoinIsEmptyOnlyForNoWords(u, lower);
    LowerWordsSnoc(u, ws, [c]);
    JoinStartsWord(lower, LowerWord(u, [c]));
    LowerWordSnoc(u, [], c);
    assert [] + [c] == [c];
  }

  /** A character after white space, or the first one, starts a word. */
  lemma {:induction false} FoldStartsWord(u: Unicode, s: string, c: char)
    requires !u.isWhitespace(c) && (s == [] || u.isWhitespace(s[|s| - 1]))
    ensures Fold(u, s + [c]) == (if Fold(u, s) != [] then Fold(u, s) + [' '] else Fold(u, s)) + u.toLowercase(c)
  {
    WordsSnoc(u, s, c);
    FoldedListGains(u, Words(u, s), c);
  }

  /** A character after a character of a word extends the word. */
  lemma {:induction false} FoldExtendsWord(u: Unicode, s: string, c: char)
    requires !u.isWhitespace(c) && s != [] && !u.isWhitespace(s[|s| - 1])
    ensures Fold(u, s + [c]) == Fold(u, s) + u.toLowercase(c)
  {
    WordsSnoc(u, s, c);
    var ws := Words(u, s);
    var init, last := ws[..|ws| - 1], ws[|ws| - 1];
    assert ws == init + [last];
    LowerWordsSnoc(u, init, last);
    LowerWordsSnoc(u, init, last + [c]);
    LowerWordSnoc(u, last, c);
    JoinExtendsWord(LowerWords(u, init), LowerWord(u, last), u.toLowercase(c));
  }

  lemma {:induction false} FoldSkipsSpace(u: Unicode, s: string, c: char)
    requires u.isWhitespace(c)
    ensures Fold(u, s + [c]) == Fold(u, s)
  {
    assert (s + [c])[..|s|] == s;
  }

  lemma {:induction false} PrefixSnoc(s: string, i: nat)
    requires i < |s|
    ensures s[..i + 1] == s[..i] + [s[i]]
  {
  }

  /** The pending-space loop joins the lower-cased words with single spaces. */
  method NormalizeText(u: Unicode, s: string) returns (out: string)
    ensures out == Fold(u, s)
  {
    out := [];
    var pendingSpace := false;
    for i := 0 to |s|
      invariant out == Fold(u, s[..i])
      invariant pendingSpace <==> out != [] && i > 0 && u.isWhitespace(s[i - 1])
    {
      var c := s[i];
      PrefixSnoc(s, i);
      if u.isWhitespace(c) {
        FoldSkipsSpace(u, s[..i], c);
        pendingSpace := out != [];
      } else {
        if i == 0 || u.isWhitespace(s[i - 1]) {
          FoldStartsWord(u, s[..i], c);
        } else {
          FoldExtendsWord(u, s[..i], c);
        }
        if pendingSpace {
          out := out + [' '];
          pendingSpace := false;
        }
        out := out + u.toLowercase(c);
      }
    }
    assert s[..|s|] == s;
  }

  // ----- what folding keeps and forgets -----

  lemma {:induction false} WordsOfOneMore(u: Unicode, s: string, w: string)
    requires s == [] || u.isWhitespace(s[|s| - 1])
    requires IsWord(u, w)
    ensures Words(u, s + w) == Words(u, s) + [w]
  {
    var init, c := w[..|w| - 1], w[|w| - 1];
    assert w == init + [c] && c in w;
    assert s + w == (s + init) + [c];
    WordsSnoc(u, s + init, c);
    if init == [] {
      assert s + init == s;
    } else {
      assert forall d <- init :: d in w;
      WordsOfOneMore(u, s, init);
      assert (s + init)[|s + init| - 1] == init[|init| - 1] && init[|init| - 1] in init;
    }
  }

  lemma {:induction false} WordsSkipSpace(u: Unicode, s: string, c: char)
    requires u.isWhitespace(c)
    ensures Words(u, s + [c]) == Words(u, s)
  {
    assert (s + [c])[..|s|] == s;
  }

  /** Both texts end alike, so one more character does the same to the words of both. */
  lemma {:induction false} WordsGrowAlike(u: Unicode, xs: seq<string>, before: string, init: string, d: char)
    requires before != [] && Words(u, before) == xs + Words(u, init)
    requires if init == [] then u.isWhitespace(before[|before| - 1]) else before[|before| - 1] == init[|init| - 1]
    ensures Words(u, before + [d]) == xs + Words(u, init + [d])
  {
    if u.isWhitespace(d) {
      WordsSkipSpace(u, before, d);
      WordsSkipSpace(u, init, d);
    } else {
      WordsSnoc(u, before, d);
      WordsSnoc(u, init, d);
      if init != [] && !u.isWhitespace(init[|init| - 1]) {
        LastGrows(xs, Words(u, init), [d]);
      }
    }
  }

  /** White space separates: the words of a text are those before it and those after it. */
  lemma {:induction false} WordsSplitAtSpace(u: Unicode, s: string, c: char, t: string)
    requires u.isWhitespace(c)
    ensures Words(u, s + [c] + t) == Words(u, s) + Words(u, t)
    decreases |t|
  {
    var spaced := s + [c];
    if t == [] {
      assert spaced + t == spaced;
      WordsSkipSpace(u, s, c);
    } else {
      var init, d := t[..|t| - 1], t[|t| - 1];
      WordsSplitAtSpace(u, s, c, init);
      assert t == init + [d];
      ConcatAssociates(spaced, init, [d]);
      WordsGrowAlike(u, Words(u, s), spaced + init, init, d);
    }
  }

  lemma {:induction false} LastGrows(xs: seq<string>, ys: seq<string>, more: string)
    requires ys != []
    ensures (xs + ys)[..|xs + ys| - 1] + [(xs + ys)[|xs + ys| - 1] + more] ==
            xs + (ys[..|ys| - 1] + [ys[|ys| - 1] + more])
  {
    assert (xs + ys)[..|xs + ys| - 1] == xs + ys[..|ys| - 1];
  }

  /** A word is lower-cased letter by letter, and a text without white space is one word. */
  lemma {:induction false} WordsAndLetters(u: Unicode, w: string, c: char)
    ensures LowerWord(u, [c]) == u.toLowercase(c) && LowerWord(u, w + [c]) == LowerWord(u, w) + u.toLowercase(c)
    ensures IsWord(u, w) ==> Words(u, w) == [w] && Fold(u, w) == LowerWord(u, w)
  {
    LowerWordSnoc(u, [], c);
    assert [] + [c] == [c];
    LowerWordSnoc(u, w, c);
    if IsWord(u, w) {
      WordsOfOneMore(u, [], w);
      assert [] + w == w && [] + [w] == [w];
      assert LowerWords(u, [w]) == [LowerWord(u, w)];
    }
  }

  lemma {:induction false} WordsAfterSpace(u: Unicode, s: string, w: string)
    requires IsWord(u, w)
    ensures Words(u, s + [' '] + w) == Words(u, s) + [w]
  {
    var spaced := s + [' '];
    assert spaced[..|spaced| - 1] == s;
    WordsOfOneMore(u, spaced, w);
  }

  /** Splitting a joined list of words gives the list back. */
  lemma {:induction false} WordsOfJoin(u: Unicode, ws: seq<string>)
    requires forall w <- ws :: IsWord(u, w)
    ensures Words(u, Join(ws)) == ws
  {
    if ws != [] {
      var init, last := ws[..|ws| - 1], ws[|ws| - 1];
      assert ws == init + [last];
      assert last in ws;
      assert forall w <- init :: w in ws;
      JoinStartsWord(init, last);
      if init == [] {
        WordsOfOneMore(u, [], last);
        assert [] + last == last;
      } else {
        WordsOfJoin(u, init);
        WordsAfterSpace(u, Join(init), last);
      }
    }
  }

  /** Two strings fold alike exactly when their lower-cased word lists agree. */
  lemma {:induction false} FoldComparesWordLists(u: Unicode, s: string, t: string)
    ensures Fold(u, s) == Fold(u, t) <==> LowerWords(u, Words(u, s)) == LowerWords(u, Words(u, t))
  {
    LowerWordsAreWords(u, Words(u, s));
    LowerWordsAreWords(u, Words(u, t));
    WordsOfJoin(u, LowerWords(u, Words(u, s)));
    WordsOfJoin(u, LowerWords(u, Words(u, t)));
  }

  /** Lower-casing a lower-cased character changes nothing. */
  ghost predicate IdempotentCase(u: Unicode) {
    forall c :: LowerWord(u, u.toLowercase(c)) == u.toLowercase(c)
  }

  lemma {:induction false} LowerWordAppends(u: Unicode, v: string, w: string)
    ensures LowerWord(u, v + w) == LowerWord(u, v) + LowerWord(u, w)
  {
    if w == [] {
      assert v + w == v;
    } else {
      LowerWordAppends(u, v, w[..|w| - 1]);
      assert (v + w)[..|v + w| - 1] == v + w[..|w| - 1];
    }
  }

  lemma {:induction false} LowerWordIdempotent(u: Unicode, w: string)
    requires IdempotentCase(u)
    ensures LowerWord(u, LowerWord(u, w)) == LowerWord(u, w)
  {
    if w != [] {
      LowerWordIdempotent(u, w[..|w| - 1]);
      LowerWordAppends(u, LowerWord(u, w[..|w| - 1]), u.toLowercase(w[|w| - 1]));
    }
  }

  lemma {:induction false} LowerWordsIdempotent(u: Unicode, ws: seq<string>)
    requires IdempotentCase(u)
    ensures LowerWords(u, LowerWords(u, ws)) == LowerWords(u, ws)
  {
    if ws != [] {
      LowerWordsIdempotent(u, ws[..|ws| - 1]);
      LowerWordIdempotent(u, ws[|ws| - 1]);
      LowerWordsSnoc(u, LowerWords(u, ws[..|ws| - 1]), LowerWord(u, ws[|ws| - 1]));
    }
  }

  /** Folding a folded string changes nothing. */
  lemma {:induction false} FoldIdempotent(u: Unicode, s: string)
    requires IdempotentCase(u)
    ensures Fold(u, Fold(u, s)) == Fold(u, s)
  {
    LowerWordsAreWords(u, Words(u, s));
    WordsOfJoin(u, LowerWords(u, Words(u, s)));
    LowerWordsIdempotent(u, Words(u, s));
  }
}
