/** `clean_data`: every raw document becomes a list of word tokens. */
module Tokenizer {
  import opened Text

  /** The characters that `[^\w\s\']` does not match, so the first substitution keeps them. */
  predicate IsKept(c: char)
  {
    IsWordChar(c) || IsSpace(c) || c == '\''
  }

  /** The characters a token is made of: word characters and the apostrophe. */
  predicate IsTokenChar(c: char)
  {
    IsWordChar(c) || c == '\''
  }

  /** `re.sub("[^\w\s\']", " ", s)`: every other character becomes a blank. */
  function ReplacePunctuation(s: string): (r: string)
    ensures |r| == |s|
  {
    if |s| == 0 then ""
    else [if IsKept(s[0]) then s[0] else ' '] + ReplacePunctuation(s[1..])
  }

  /** The leading whitespace removed, as the left half of `str.strip()`. */
  function LStrip(s: string): (r: string)
    ensures |r| <= |s|
    ensures |s| > 0 && IsSpace(s[0]) ==> |r| < |s|
  {
    if |s| > 0 && IsSpace(s[0]) then LStrip(s[1..]) else s
  }

  /** The trailing whitespace removed, as the right half of `str.strip()`. */
  function RStrip(s: string): string
  {
    if |s| > 0 && IsSpace(s[|s| - 1]) then RStrip(s[..|s| - 1]) else s
  }

  /** `str.strip()`. */
  function Strip(s: string): string
  {
    RStrip(LStrip(s))
  }

  /** Every whitespace character is a blank, and no two whitespace characters are
      neighbours. */
  predicate Collapsed(s: string)
  {
    && (forall i :: 0 <= i < |s| && IsSpace(s[i]) ==> s[i] == ' ')
    && (forall i :: 0 <= i < |s| - 1 ==> !(IsSpace(s[i]) && IsSpace(s[i + 1])))
  }

  /** `re.sub("[\s]+", " ", s)`: every maximal run of whitespace becomes one blank. */
  function CollapseSpaces(s: string): string
    decreases |s|
  {
    if |s| == 0 then ""
    else if IsSpace(s[0]) then " " + CollapseSpaces(LStrip(s))
    else [s[0]] + CollapseSpaces(s[1..])
  }

  /** `LStrip` removes a whitespace prefix and nothing more: the result is a suffix of
      the input and does not start with whitespace. */
  lemma {:induction false} LStripSpec(s: string)
    ensures LStrip(s) == s[|s| - |LStrip(s)|..]
    ensures forall i :: 0 <= i < |s| - |LStrip(s)| ==> IsSpace(s[i])
    ensures LStrip(s) == "" || !IsSpace(LStrip(s)[0])
  {
    if |s| > 0 && IsSpace(s[0]) {
      LStripSpec(s[1..]);
    }
  }

  /** `RStrip` removes a whitespace suffix and nothing more: the result is a prefix of
      the input and does not end with whitespace. */
  lemma {:induction false} RStripSpec(s: string)
    ensures |RStrip(s)| <= |s| && RStrip(s) == s[..|RStrip(s)|]
    ensures forall i :: |RStrip(s)| <= i < |s| ==> IsSpace(s[i])
    ensures RStrip(s) == "" || !IsSpace(RStrip(s)[|RStrip(s)| - 1])
  {
    if |s| > 0 && IsSpace(s[|s| - 1]) {
      RStripSpec(s[..|s| - 1]);
    }
  }

  /** After collapsing, every whitespace character is a single blank; the result is
      empty only for an empty input, and starts with a blank exactly when the input
      starts with whitespace. */
  lemma {:induction false} CollapseSpacesSpec(s: string)
    ensures Collapsed(CollapseSpaces(s))
    ensures |CollapseSpaces(s)| > 0 <==> |s| > 0
    ensures |s| > 0 ==> CollapseSpaces(s)[0] == if IsSpace(s[0]) then ' ' else s[0]
    decreases |s|
  {
    if |s| > 0 {
      if IsSpace(s[0]) {
        var t := LStrip(s);
        LStripSpec(s);
        CollapseSpacesSpec(t);
      } else {
        CollapseSpacesSpec(s[1..]);
      }
    }
  }

  /** The text after the two substitutions and the strip, before the split. */
  function CleanText(s: string): string
  {
    Strip(CollapseSpaces(ReplacePunctuation(s)))
  }

  /** What `clean_data` stores for one document. */
  function Tokenize(s: string): (tokens: seq<string>)
    ensures |tokens| >= 1
  {
    Split(CleanText(s))
  }

  /** The token characters of `s`, in order. */
  function TokenChars(s: string): string
  {
    if |s| == 0 then ""
    else (if IsTokenChar(s[0]) then [s[0]] else "") + TokenChars(s[1..])
  }

  lemma {:induction false} NonSpaceReplacePunctuation(s: string)
    ensures NonSpace(ReplacePunctuation(s)) == TokenChars(s)
  {
    if |s| > 0 {
      NonSpaceReplacePunctuation(s[1..]);
      var r := ReplacePunctuation(s);
      assert r[0] == (if IsKept(s[0]) then s[0] else ' ');
      assert r[1..] == ReplacePunctuation(s[1..]);
    }
  }

  lemma {:induction false} NonSpaceLStrip(s: string)
    ensures NonSpace(LStrip(s)) == NonSpace(s)
  {
    if |s| > 0 && IsSpace(s[0]) {
      NonSpaceLStrip(s[1..]);
    }
  }

  lemma {:induction false} NonSpaceAllSpace(s: string)
    requires forall i :: 0 <= i < |s| ==> IsSpace(s[i])
    ensures NonSpace(s) == ""
  {
    if |s| > 0 {
      NonSpaceAllSpace(s[1..]);
    }
  }

  lemma NonSpaceRStrip(s: string)
    ensures NonSpace(RStrip(s)) == NonSpace(s)
  {
    var r := RStrip(s);
    RStripSpec(s);
    assert s == r + s[|r|..];
    NonSpaceAppend(r, s[|r|..]);
    NonSpaceAllSpace(s[|r|..]);
  }

  lemma {:induction false} NonSpaceCollapseSpaces(s: string)
    ensures NonSpace(CollapseSpaces(s)) == NonSpace(s)
    decreases |s|
  {
    if |s| > 0 {
      if IsSpace(s[0]) {
        var t := LStrip(s);
        NonSpaceCollapseSpaces(t);
        NonSpaceLStrip(s);
        NonSpaceAppend(" ", CollapseSpaces(t));
      } else {
        NonSpaceCollapseSpaces(s[1..]);
        NonSpaceAppend([s[0]], CollapseSpaces(s[1..]));
      }
    }
  }

  lemma CollapsedSlice(c: string, a: nat, b: nat)
    requires Collapsed(c) && a <= b <= |c|
    ensures Collapsed(c[a..b])
  {
    var x := c[a..b];
    assert forall i :: 0 <= i < |x| ==> x[i] == c[a + i];
  }

  /** Stripping a collapsed text keeps it collapsed, removes its blank ends and no
      other character. */
  lemma StripCollapsed(c: string)
    requires Collapsed(c)
    ensures Collapsed(Strip(c)) && NoDoubleBlank(Strip(c))
    ensures Strip(c) == "" || (!IsSpace(Strip(c)[0]) && !IsSpace(Strip(c)[|Strip(c)| - 1]))
    ensures NonSpace(Strip(c)) == NonSpace(c)
  {
    var l := LStrip(c);
    LStripSpec(c);
    CollapsedSlice(c, |c| - |l|, |c|);
    var x := RStrip(l);
    RStripSpec(l);
    CollapsedSlice(l, 0, |x|);
    assert x == Strip(c) && Collapsed(x);
    assert IsSpace(' ');
    NonSpaceLStrip(c);
    NonSpaceRStrip(l);
  }

  /** The shape of the cleaned text: only blanks as whitespace, never two of them
      side by side, none at either end, and the token characters of the raw text as
      its other characters. */
  lemma CleanTextShape(s: string)
    ensures Collapsed(CleanText(s)) && NoDoubleBlank(CleanText(s))
    ensures CleanText(s) == "" || (!IsSpace(CleanText(s)[0]) && !IsSpace(CleanText(s)[|CleanText(s)| - 1]))
    ensures NonSpace(CleanText(s)) == TokenChars(s)
  {
    var r := ReplacePunctuation(s);
    CollapseSpacesSpec(r);
    StripCollapsed(CollapseSpaces(r));
    NonSpaceReplacePunctuation(s);
    NonSpaceCollapseSpaces(r);
  }

  /** What `clean_data` promises of each document: the tokens, glued together, are
      exactly the word characters and apostrophes of the raw text, in order; no token
      holds whitespace or any other character; and every token is non-empty, except
      that a document without a single token character becomes exactly `[""]`. */
  lemma TokenizeSpec(s: string)
    ensures Concat(Tokenize(s)) == TokenChars(s)
    ensures forall t, c :: t in Tokenize(s) && c in t ==> IsTokenChar(c) && !IsSpace(c)
    ensures Tokenize(s) == [""] <==> TokenChars(s) == ""
    ensures Tokenize(s) != [""] ==> forall t :: t in Tokenize(s) ==> t != ""
  {
    var x := CleanText(s);
    var ts := Tokenize(s);
    CleanTextShape(s);
    ConcatSplit(x);
    SplitPiecesNonEmpty(x);
    forall t, c | t in ts && c in t ensures IsTokenChar(c) && !IsSpace(c) {
      ConcatHolds(ts, t, c);
      TokenCharsHolds(s, c);
    }
    if x == "" {
      assert ts == [""];
    } else {
      assert x[0] != ' ';
      assert forall k :: 0 <= k < |ts| ==> ts[k] != "";
      assert ts[0] != "";
      assert Concat(ts) == ts[0] + Concat(ts[1..]);
    }
  }

  /** Joining the tokens with single blanks gives back the cleaned text. */
  lemma TokenizeJoin(s: string)
    ensures Join(Tokenize(s)) == CleanText(s)
  {
    JoinSplit(CleanText(s));
  }

  lemma {:induction false} TokenCharsHolds(s: string, c: char)
    requires c in TokenChars(s)
    ensures IsTokenChar(c) && c in s
  {
    if |s| > 0 && !(IsTokenChar(s[0]) && c == s[0]) {
      TokenCharsHolds(s[1..], c);
    }
  }

  /** The substitution works position by position: a kept character stays, any other
      character becomes a blank in its place, so nothing is deleted. */
  lemma {:induction false} ReplacePunctuationSpec(s: string)
    ensures forall i :: 0 <= i < |s| ==>
      ReplacePunctuation(s)[i] == if IsKept(s[i]) then s[i] else ' '
  {
    if |s| > 0 {
      ReplacePunctuationSpec(s[1..]);
      assert forall i :: 1 <= i < |s| ==> ReplacePunctuation(s)[i] == ReplacePunctuation(s[1..])[i - 1];
    }
  }

  /** `LStrip` of whitespace followed by text that does not start with whitespace is
      that text. */
  lemma {:induction false} LStripSpaces(w: string, v: string)
    requires forall i :: 0 <= i < |w| ==> IsSpace(w[i])
    requires |v| > 0 ==> !IsSpace(v[0])
    ensures LStrip(w + v) == v
  {
    if |w| > 0 {
      assert (w + v)[1..] == w[1..] + v;
      LStripSpaces(w[1..], v);
    } else {
      assert w + v == v;
    }
  }

  /** Text after a string that ends in a non-whitespace character is not touched by
      `LStrip`. */
  lemma {:induction false} LStripAppend(u: string, v: string)
    requires |u| > 0 && !IsSpace(u[|u| - 1])
    ensures LStrip(u + v) == LStrip(u) + v
  {
    if IsSpace(u[0]) {
      assert (u + v)[1..] == u[1..] + v;
      LStripAppend(u[1..], v);
    }
  }

  /** Collapsing works separately on two parts split after a non-whitespace character. */
  lemma {:induction false} CollapseAppend(u: string, v: string)
    requires |u| > 0 && !IsSpace(u[|u| - 1])
    ensures CollapseSpaces(u + v) == CollapseSpaces(u) + CollapseSpaces(v)
    decreases |u|
  {
    if IsSpace(u[0]) {
      var l := LStrip(u);
      LStripAppend(u, v);
      LStripSpec(u);
      assert l != "";
      assert l[|l| - 1] == u[|u| - 1];
      CollapseAppend(l, v);
    } else if |u| == 1 {
      assert (u + v)[1..] == v;
      assert CollapseSpaces(u) == [u[0]] + CollapseSpaces("");
    } else {
      assert (u + v)[1..] == u[1..] + v;
      CollapseAppend(u[1..], v);
    }
  }

  /** A run of whitespace after a non-whitespace character becomes exactly one blank,
      whatever follows it; the text on either side is collapsed on its own. */
  lemma CollapseSeparator(u: string, w: string, v: string)
    requires |u| > 0 && !IsSpace(u[|u| - 1])
    requires |w| > 0 && forall i :: 0 <= i < |w| ==> IsSpace(w[i])
    requires |v| > 0 ==> !IsSpace(v[0])
    ensures CollapseSpaces(u + w + v) == CollapseSpaces(u) + " " + CollapseSpaces(v)
  {
    assert u + w + v == u + (w + v);
    CollapseAppend(u, w + v);
    assert (w + v)[0] == w[0];
    LStripSpaces(w, v);
  }

  /** The longest prefix of `s` made of token characters. */
  function LeadingRun(s: string): (r: string)
    ensures |r| <= |s|
    ensures |s| > 0 && IsTokenChar(s[0]) ==> |r| > 0
  {
    if |s| > 0 && IsTokenChar(s[0]) then [s[0]] + LeadingRun(s[1..]) else ""
  }

  /** The words of a document, defined without the regular expressions: the maximal
      runs of token characters, in order. */
  function Words(s: string): seq<string>
    decreases |s|
  {
    if |s| == 0 then []
    else if !IsTokenChar(s[0]) then Words(s[1..])
    else var w := LeadingRun(s); [w] + Words(s[|w|..])
  }

  /** A character that is not a token character only separates words. */
  lemma WordsSkip(c: char, t: string)
    requires !IsTokenChar(c)
    ensures Words([c] + t) == Words(t)
  {
    assert ([c] + t)[1..] == t;
  }

  /** A token character in front either starts a word of its own or extends the first
      word, as the next character does or does not continue the run. */
  lemma WordsCons(c: char, t: string)
    requires IsTokenChar(c)
    ensures |t| > 0 && IsTokenChar(t[0]) ==> Words([c] + t) == [[c] + Words(t)[0]] + Words(t)[1..]
    ensures !(|t| > 0 && IsTokenChar(t[0])) ==> Words([c] + t) == [[c]] + Words(t)
  {
    var s := [c] + t;
    var w := LeadingRun(t);
    var rest := Words(t[|w|..]);
    assert s[1..] == t;
    assert LeadingRun(s) == [c] + w;
    assert s[|w| + 1..] == t[|w|..];
    assert Words(s) == [[c] + w] + rest;
    if |t| > 0 && IsTokenChar(t[0]) {
      assert Words(t) == [w] + rest;
      assert Words(t)[0] == w && Words(t)[1..] == rest;
    } else {
      assert w == "" && t[0..] == t;
      assert [c] + w == [c];
    }
  }

  lemma {:induction false} WordsNone(w: string)
    requires forall i :: 0 <= i < |w| ==> !IsTokenChar(w[i])
    ensures Words(w) == []
  {
    if |w| > 0 {
      WordsNone(w[1..]);
    }
  }

  /** Trailing characters that are not token characters add no word. */
  lemma {:induction false} WordsAppendSeparators(p: string, w: string)
    requires forall i :: 0 <= i < |w| ==> !IsTokenChar(w[i])
    ensures Words(p + w) == Words(p)
  {
    if |p| == 0 {
      assert p + w == w;
      WordsNone(w);
    } else {
      var t := p[1..];
      assert p == [p[0]] + t;
      assert p + w == [p[0]] + (t + w);
      WordsAppendSeparators(t, w);
      if IsTokenChar(p[0]) {
        WordsCons(p[0], t + w);
        WordsCons(p[0], t);
      } else {
        WordsSkip(p[0], t + w);
        WordsSkip(p[0], t);
      }
    }
  }

  /** Turning punctuation into blanks keeps the words. */
  lemma {:induction false} WordsReplacePunctuation(s: string)
    ensures Words(ReplacePunctuation(s)) == Words(s)
  {
    if |s| > 0 {
      var t := s[1..];
      var r := ReplacePunctuation(t);
      WordsReplacePunctuation(t);
      assert s == [s[0]] + t;
      assert ReplacePunctuation(s) == [if IsKept(s[0]) then s[0] else ' '] + r;
      if |t| > 0 {
        assert r[0] == if IsKept(t[0]) then t[0] else ' ';
      }
      if IsTokenChar(s[0]) {
        WordsCons(s[0], r);
        WordsCons(s[0], t);
      } else {
        WordsSkip(if IsKept(s[0]) then s[0] else ' ', r);
        WordsSkip(s[0], t);
      }
    }
  }

  /** Leading whitespace holds no word. */
  lemma {:induction false} WordsLStrip(s: string)
    ensures Words(LStrip(s)) == Words(s)
  {
    if |s| > 0 && IsSpace(s[0]) {
      WordsLStrip(s[1..]);
    }
  }

  /** Collapsing whitespace runs keeps the words. */
  lemma {:induction false} WordsCollapseSpaces(s: string)
    ensures Words(CollapseSpaces(s)) == Words(s)
    decreases |s|
  {
    if |s| > 0 {
      var t := s[1..];
      assert s == [s[0]] + t;
      if IsSpace(s[0]) {
        var l := LStrip(s);
        WordsCollapseSpaces(l);
        WordsLStrip(s);
        WordsSkip(' ', CollapseSpaces(l));
      } else {
        var c := CollapseSpaces(t);
        WordsCollapseSpaces(t);
        CollapseSpacesSpec(t);
        if IsTokenChar(s[0]) {
          WordsCons(s[0], c);
          WordsCons(s[0], t);
        } else {
          WordsSkip(s[0], c);
          WordsSkip(s[0], t);
        }
      }
    }
  }

  /** Stripping whitespace at both ends keeps the words. */
  lemma WordsStrip(s: string)
    ensures Words(Strip(s)) == Words(s)
  {
    var l := LStrip(s);
    WordsLStrip(s);
    RStripSpec(l);
    var r := RStrip(l);
    assert l == r + l[|r|..];
    WordsAppendSeparators(r, l[|r|..]);
  }

  /** A non-space character of `s` survives in `NonSpace(s)`. */
  lemma {:induction false} NonSpaceHolds(s: string, i: nat)
    requires i < |s| && !IsSpace(s[i])
    ensures s[i] in NonSpace(s)
  {
    if i > 0 {
      NonSpaceHolds(s[1..], i - 1);
      assert NonSpace(s) == (if IsSpace(s[0]) then "" else [s[0]]) + NonSpace(s[1..]);
    }
  }

  /** Splitting on single blanks finds the words of a text made only of token
      characters and single blanks, with none at either end. */
  lemma {:induction false} SplitWords(y: string)
    requires forall i :: 0 <= i < |y| ==> y[i] == ' ' || IsTokenChar(y[i])
    requires NoDoubleBlank(y)
    requires |y| > 0 && y[0] != ' ' && y[|y| - 1] != ' '
    ensures Split(y) == Words(y)
    decreases |y|
  {
    var t := y[1..];
    assert y == [y[0]] + t;
    WordsCons(y[0], t);
    if |y| == 1 {
      assert t == "";
    } else if y[1] != ' ' {
      assert NoDoubleBlank(t) by {
        forall i | 0 <= i < |t| - 1 ensures !(t[i] == ' ' && t[i + 1] == ' ') {
          assert t[i] == y[i + 1] && t[i + 1] == y[i + 2];
        }
      }
      SplitWords(t);
    } else {
      var u := y[2..];
      assert |y| >= 3 && y[2] != ' ';
      assert t == [' '] + u && t[1..] == u;
      assert NoDoubleBlank(u) by {
        forall i | 0 <= i < |u| - 1 ensures !(u[i] == ' ' && u[i + 1] == ' ') {
          assert u[i] == y[i + 2] && u[i + 1] == y[i + 3];
        }
      }
      SplitWords(u);
      WordsSkip(' ', u);
    }
  }

  /** The tokens `clean_data` stores for a document are exactly its words, the maximal
      runs of word characters and apostrophes; a document without any word is `[""]`. */
  lemma TokenizeWords(s: string)
    ensures Tokenize(s) == if Words(s) == [] then [""] else Words(s)
  {
    var r := ReplacePunctuation(s);
    var x := CleanText(s);
    WordsReplacePunctuation(s);
    WordsCollapseSpaces(r);
    WordsStrip(CollapseSpaces(r));
    CleanTextShape(s);
    if x != "" {
      forall i | 0 <= i < |x| ensures x[i] == ' ' || IsTokenChar(x[i]) {
        if !IsSpace(x[i]) {
          NonSpaceHolds(x, i);
          TokenCharsHolds(s, x[i]);
        }
      }
      SplitWords(x);
    }
  }

  /** ` a,b!` gives two tokens: the leading blank and the `!` leave nothing behind,
      and the comma splits `a` from `b` as a blank would. */
  lemma TokenizeExample()
    ensures Tokenize(" a,b!") == ["a", "b"]
  {
    WordsExample();
    TokenizeWords(" a,b!");
  }

  /** The apostrophe survives the first substitution, so a lone `'` is a word and
      becomes the token `'`, not the empty token. */
  lemma TokenizeApostrophe()
    ensures Tokenize("'") == ["'"]
  {
    assert "'" == ['\''] + "";
    WordsCons('\'', "");
    TokenizeWords("'");
  }

  /** The words of ` a,b!`, one character at a time. */
  lemma WordsExample()
    ensures Words(" a,b!") == ["a", "b"]
  {
    assert Words("b!") == ["b"] by {
      assert "b!" == ['b'] + "!" && "!" == ['!'] + "";
      WordsCons('b', "!");
      WordsSkip('!', "");
    }
    assert Words(",b!") == ["b"] by { assert ",b!" == [','] + "b!"; WordsSkip(',', "b!"); }
    assert Words("a,b!") == ["a", "b"] by { assert "a,b!" == ['a'] + ",b!"; WordsCons('a', ",b!"); }
    assert " a,b!" == [' '] + "a,b!";
    WordsSkip(' ', "a,b!");
  }

  /** `clean_data(dataset)`. The source overwrites each string of the list with its
      token list; here the token lists go into a new array of the same length. */
  method CleanData(dataset: array<string>) returns (docs: array<seq<string>>)
    ensures fresh(docs)
    ensures docs.Length == dataset.Length
    ensures forall i :: 0 <= i < docs.Length ==> docs[i] == Tokenize(dataset[i])
  {
    docs := new seq<string>[dataset.Length];
    for i := 0 to dataset.Length
      invariant forall j :: 0 <= j < i ==> docs[j] == Tokenize(dataset[j])
    {
      docs[i] := Tokenize(dataset[i]);
    }
  }
}
