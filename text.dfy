/** The parts of Python's `str` and `re` that the pipeline relies on: the character
    classes `\w` and `\s`, `' '.join(...)` and `str.split(" ")`. */
module Text {

  /** `\w`, restricted to ASCII: a letter, a digit or the underscore. */
  predicate IsWordChar(c: char)
  {
    'a' <= c <= 'z' || 'A' <= c <= 'Z' || '0' <= c <= '9' || c == '_'
  }

  /** The characters Python's `str.isspace` accepts; in a `str` pattern `\s` matches
      exactly these, and `str.strip()` with no argument removes exactly these. */
  predicate IsSpace(c: char)
  {
    || c == ' '
    || '\t' <= c <= '\r'
    || '\U{1C}' <= c <= '\U{1F}'
    || c == '\U{85}'
    || c == '\U{A0}'
    || c == '\U{1680}'
    || '\U{2000}' <= c <= '\U{200A}'
    || c == '\U{2028}'
    || c == '\U{2029}'
    || c == '\U{202F}'
    || c == '\U{205F}'
    || c == '\U{3000}'
  }

  /** `' '.join(ws)`. */
  function Join(ws: seq<string>): string
  {
    if |ws| == 0 then ""
    else if |ws| == 1 then ws[0]
    else ws[0] + " " + Join(ws[1..])
  }

  /** `s.split(" ")`: the pieces between single blanks. Two adjacent blanks give an
      empty piece, and the empty string gives `[""]`, so there is always a piece. */
  function Split(s: string): (r: seq<string>)
    ensures |r| >= 1
  {
    if |s| == 0 then [""]
    else if s[0] == ' ' then [""] + Split(s[1..])
    else var rest := Split(s[1..]); [[s[0]] + rest[0]] + rest[1..]
  }

  /** `''.join(ws)`: the pieces glued together with nothing between them. */
  function Concat(ws: seq<string>): string
  {
    if |ws| == 0 then "" else ws[0] + Concat(ws[1..])
  }

  /** The characters of `s` that are not whitespace, in order. */
  function NonSpace(s: string): string
  {
    if |s| == 0 then ""
    else (if IsSpace(s[0]) then "" else [s[0]]) + NonSpace(s[1..])
  }

  /** Two neighbouring characters are never both blanks. */
  predicate NoDoubleBlank(s: string)
  {
    forall i :: 0 <= i < |s| - 1 ==> !(s[i] == ' ' && s[i + 1] == ' ')
  }

  lemma {:induction false} NonSpaceAppend(a: string, b: string)
    ensures NonSpace(a + b) == NonSpace(a) + NonSpace(b)
  {
    if |a| > 0 {
      assert (a + b)[1..] == a[1..] + b;
      NonSpaceAppend(a[1..], b);
    } else {
      assert a + b == b;
    }
  }

  /** Joining the pieces of a split with single blanks gives back the string. */
  lemma {:induction false} JoinSplit(s: string)
    ensures Join(Split(s)) == s
  {
    if |s| > 0 {
      var rest := Split(s[1..]);
      JoinSplit(s[1..]);
      if s[0] == ' ' {
        assert Split(s) == [""] + rest;
        assert Join(Split(s)) == "" + " " + Join(rest);
      } else if |rest| == 1 {
        assert Split(s) == [[s[0]] + rest[0]];
      } else {
        assert Split(s)[1..] == rest[1..];
        assert Join(rest) == rest[0] + " " + Join(rest[1..]);
      }
    }
  }

  /** A prefix without blanks is glued onto the first piece of what follows it. */
  lemma {:induction false} SplitBlanklessPrefix(w: string, t: string)
    requires ' ' !in w
    ensures Split(w + t) == [w + Split(t)[0]] + Split(t)[1..]
  {
    if |w| == 0 {
      assert w + t == t;
      var r := Split(t);
      assert w + r[0] == r[0];
      assert r == [r[0]] + r[1..];
    } else {
      assert (w + t)[1..] == w[1..] + t;
      assert w[0] in w;
      SplitBlanklessPrefix(w[1..], t);
      assert [w[0]] + (w[1..] + Split(t)[0]) == w + Split(t)[0];
    }
  }

  /** Splitting a join of blank-free words gives back the words: `' '.join` loses
      nothing when no word holds a blank. */
  lemma {:induction false} SplitJoin(ws: seq<string>)
    requires |ws| >= 1
    requires forall w :: w in ws ==> ' ' !in w
    ensures Split(Join(ws)) == ws
  {
    if |ws| == 1 {
      SplitBlanklessPrefix(ws[0], "");
      assert ws[0] + "" == ws[0];
    } else {
      var tail := Join(ws[1..]);
      SplitJoin(ws[1..]);
      assert Join(ws) == ws[0] + (" " + tail);
      assert (" " + tail)[1..] == tail;
      assert Split(" " + tail) == [""] + ws[1..];
      SplitBlanklessPrefix(ws[0], " " + tail);
      assert ws[0] + "" == ws[0];
    }
  }

  /** When every whitespace character of `s` is a blank, the pieces of the split,
      glued together, are the non-whitespace characters of `s`. */
  lemma {:induction false} ConcatSplit(s: string)
    requires forall i :: 0 <= i < |s| && IsSpace(s[i]) ==> s[i] == ' '
    ensures Concat(Split(s)) == NonSpace(s)
  {
    if |s| > 0 {
      var rest := Split(s[1..]);
      ConcatSplit(s[1..]);
      if s[0] == ' ' {
        assert Split(s) == [""] + rest;
        assert Concat(Split(s)) == "" + Concat(rest);
      } else {
        assert Split(s)[1..] == rest[1..];
        assert Concat(rest) == rest[0] + Concat(rest[1..]);
        assert Concat(Split(s)) == ([s[0]] + rest[0]) + Concat(rest[1..]);
      }
    }
  }

  /** Every piece of a split is free of blanks. */
  lemma {:induction false} SplitPiecesBlankFree(s: string)
    ensures forall p :: p in Split(s) ==> ' ' !in p
  {
    if |s| > 0 {
      SplitPiecesBlankFree(s[1..]);
      var rest := Split(s[1..]);
      if s[0] != ' ' {
        assert rest[0] in rest;
        forall p | p in rest[1..] ensures p in rest { }
      }
    }
  }

  /** A string with no doubled blank that neither starts nor ends with a blank
      splits into non-empty pieces only. */
  lemma {:induction false} SplitPiecesNonEmpty(s: string)
    requires NoDoubleBlank(s)
    requires |s| > 0 ==> s[|s| - 1] != ' '
    ensures forall k :: 1 <= k < |Split(s)| ==> Split(s)[k] != ""
    ensures |s| > 0 && s[0] != ' ' ==> Split(s)[0] != ""
  {
    if |s| > 0 {
      var t := s[1..];
      assert NoDoubleBlank(t) by {
        forall i | 0 <= i < |t| - 1 ensures !(t[i] == ' ' && t[i + 1] == ' ') {
          assert t[i] == s[i + 1] && t[i + 1] == s[i + 2];
        }
      }
      SplitPiecesNonEmpty(t);
      if s[0] == ' ' {
        assert |s| >= 2 && s[1] != ' ';
        assert Split(s) == [""] + Split(t);
      }
    }
  }

  /** A character of a piece is a character of the whole. */
  lemma {:induction false} ConcatHolds(ws: seq<string>, w: string, c: char)
    requires w in ws && c in w
    ensures c in Concat(ws)
  {
    if w != ws[0] {
      ConcatHolds(ws[1..], w, c);
    }
  }
}
