/**
 * `friendly_text`: the label transform that turns a raw fan-speed value such
 * as `"boost_iq"` into the name shown to the user, `"Boost Iq"`.
 * Underscores become spaces, the text is split on whitespace the way
 * `str.split()` splits it, each word's first character is upper-cased and
 * the words are joined with single spaces.
 */
module Text {
  import opened Wrappers

  /** Python's `str.isspace` for one character. */
  predicate IsSpace(c: char) {
    ('\t' <= c <= '\r') || ('\U{1C}' <= c <= ' ') || c == '\U{85}' || c == '\U{A0}'
    || c == '\U{1680}' || ('\U{2000}' <= c <= '\U{200A}') || c == '\U{2028}' || c == '\U{2029}'
    || c == '\U{202F}' || c == '\U{205F}' || c == '\U{3000}'
  }

  /** A word as `str.split()` yields it: non-empty, with no whitespace in it. */
  predicate IsWord(w: string) {
    |w| > 0 && forall i :: 0 <= i < |w| ==> !IsSpace(w[i])
  }

  /** `s.replace("_", " ")`. */
  function ReplaceUnderscores(s: string): (r: string)
    ensures |r| == |s|
    ensures forall i :: 0 <= i < |r| ==> r[i] != '_'
    ensures forall i :: 0 <= i < |s| && s[i] != '_' ==> r[i] == s[i]
    ensures forall i :: 0 <= i < |s| && s[i] == '_' ==> r[i] == ' '
  {
    seq(|s|, i requires 0 <= i < |s| => if s[i] == '_' then ' ' else s[i])
  }

  /** The length of the run of non-whitespace characters `s` starts with. */
  function WordLength(s: string): (k: nat)
    ensures k <= |s|
    ensures forall i :: 0 <= i < k ==> !IsSpace(s[i])
    ensures k < |s| ==> IsSpace(s[k])
  {
    if |s| == 0 || IsSpace(s[0]) then 0 else 1 + WordLength(s[1..])
  }

  /** `s.split()`: the maximal runs of non-whitespace characters, in order. */
  function Words(s: string): (ws: seq<string>)
    ensures forall i :: 0 <= i < |ws| ==> IsWord(ws[i])
    decreases |s|
  {
    if |s| == 0 then []
    else if IsSpace(s[0]) then Words(s[1..])
    else
      var k := WordLength(s);
      [s[..k]] + Words(s[k..])
  }

  /**
   * A reference for what `str.split()` keeps, read one character at a time:
   * whitespace is dropped, except that one space goes before a character
   * that follows whitespace once something has been written. `started`
   * says something has been written; `gap` that whitespace came since.
   */
  function Squeeze(s: string, started: bool, gap: bool): string
    decreases |s|
  {
    if |s| == 0 then ""
    else if IsSpace(s[0]) then Squeeze(s[1..], started, started)
    else (if gap then " " else "") + [s[0]] + Squeeze(s[1..], true, false)
  }

  /** The text with leading and trailing whitespace removed and every inner run of whitespace replaced by one space. */
  function Collapse(s: string): string {
    Squeeze(s, false, false)
  }

  /** `" ".join(ws)`. */
  function Join(ws: seq<string>): string {
    if |ws| == 0 then ""
    else if |ws| == 1 then ws[0]
    else ws[0] + " " + Join(ws[1..])
  }

  /** `c.upper()` on ASCII letters; every other character is left as it is. */
  function Upper(c: char): (u: char)
    ensures IsSpace(u) <==> IsSpace(c)
    ensures u == '_' <==> c == '_'
  {
    if 'a' <= c <= 'z' then (c as int - 32) as char else c
  }

  /** `word[0].upper() + word[1:]`; the words `Words` yields are never empty. */
  function Capitalize(w: string): (r: string)
    ensures |r| == |w|
    ensures |w| > 0 ==> r[0] == Upper(w[0]) && r[1..] == w[1..]
  {
    if |w| == 0 then w else [Upper(w[0])] + w[1..]
  }

  function CapitalizeAll(ws: seq<string>): (rs: seq<string>)
    ensures |rs| == |ws|
    ensures forall i :: 0 <= i < |rs| ==> rs[i] == Capitalize(ws[i])
  {
    if |ws| == 0 then [] else [Capitalize(ws[0])] + CapitalizeAll(ws[1..])
  }

  /** `friendly_text(s)`. */
  function FriendlyText(s: string): string {
    Join(CapitalizeAll(Words(ReplaceUnderscores(s))))
  }

  // ---- what the shape of the output is ----

  /**
   * Text already in the joined form: every whitespace character is a plain
   * space, and there is no leading, trailing or doubled space.
   */
  predicate IsSingleSpaced(s: string) {
    && (forall i :: 0 <= i < |s| && IsSpace(s[i]) ==> s[i] == ' ')
    && (|s| > 0 ==> !IsSpace(s[0]) && !IsSpace(s[|s| - 1]))
    && (forall i :: 0 <= i < |s| - 1 && IsSpace(s[i]) ==> !IsSpace(s[i + 1]))
  }

  lemma CapitalizeIsWord(w: string)
    requires IsWord(w)
    ensures IsWord(Capitalize(w))
    ensures forall i :: 0 <= i < |w| && w[i] != '_' ==> Capitalize(w)[i] != '_'
  {
    var r := Capitalize(w);
    forall i | 0 <= i < |r|
      ensures !IsSpace(r[i]) && (w[i] != '_' ==> r[i] != '_')
    {
      if i > 0 {
        assert r[i] == r[1..][i - 1] == w[1..][i - 1] == w[i];
      }
    }
  }

  lemma {:induction false} JoinIsSingleSpaced(ws: seq<string>)
    requires forall i :: 0 <= i < |ws| ==> IsWord(ws[i])
    ensures IsSingleSpaced(Join(ws))
    ensures |ws| > 0 ==> |Join(ws)| > 0
  {
    if |ws| > 1 {
      JoinIsSingleSpaced(ws[1..]);
      var w := ws[0];
      var t := Join(ws[1..]);
      var s := w + " " + t;
      assert Join(ws) == s;
      forall i | 0 <= i < |s|
        ensures s[i] == if i < |w| then w[i] else if i == |w| then ' ' else t[i - |w| - 1]
      {
      }
    }
  }

  lemma {:induction false} JoinHasNoUnderscore(ws: seq<string>)
    requires forall i, j :: 0 <= i < |ws| && 0 <= j < |ws[i]| ==> ws[i][j] != '_'
    ensures forall i :: 0 <= i < |Join(ws)| ==> Join(ws)[i] != '_'
  {
    if |ws| > 1 {
      JoinHasNoUnderscore(ws[1..]);
      var w := ws[0];
      var t := Join(ws[1..]);
      var s := w + " " + t;
      assert Join(ws) == s;
      forall i | 0 <= i < |s|
        ensures s[i] != '_'
      {
        if i < |w| {
          assert s[i] == ws[0][i];
        } else if i > |w| {
          assert s[i] == t[i - |w| - 1];
        }
      }
    }
  }

  /** The output has no underscore and no leading, trailing or doubled space. */
  lemma FriendlyTextShape(s: string)
    ensures forall i :: 0 <= i < |FriendlyText(s)| ==> FriendlyText(s)[i] != '_'
    ensures IsSingleSpaced(FriendlyText(s))
  {
    var u := ReplaceUnderscores(s);
    var ws := Words(u);
    WordsHaveNoUnderscore(u);
    var cs := CapitalizeAll(ws);
    forall i | 0 <= i < |cs|
      ensures IsWord(cs[i])
      ensures forall j :: 0 <= j < |cs[i]| ==> cs[i][j] != '_'
    {
      CapitalizeIsWord(ws[i]);
    }
    JoinIsSingleSpaced(cs);
    JoinHasNoUnderscore(cs);
  }

  lemma {:induction false} WordsHaveNoUnderscore(s: string)
    requires forall i :: 0 <= i < |s| ==> s[i] != '_'
    ensures forall i, j :: 0 <= i < |Words(s)| && 0 <= j < |Words(s)[i]| ==> Words(s)[i][j] != '_'
    decreases |s|
  {
    if |s| > 0 {
      if IsSpace(s[0]) {
        WordsHaveNoUnderscore(s[1..]);
      } else {
        var k := WordLength(s);
        WordsHaveNoUnderscore(s[k..]);
        assert Words(s) == [s[..k]] + Words(s[k..]);
      }
    }
  }

  // ---- splitting inverts joining ----

  lemma WordLengthOfWord(w: string, rest: string)
    requires IsWord(w)
    requires |rest| == 0 || IsSpace(rest[0])
    ensures WordLength(w + rest) == |w|
    decreases |w|
  {
    if |w| > 1 {
      assert (w + rest)[1..] == w[1..] + rest;
      WordLengthOfWord(w[1..], rest);
    } else {
      assert (w + rest)[1..] == rest;
    }
  }

  lemma WordsOfWordAndRest(w: string, rest: string)
    requires IsWord(w)
    requires |rest| == 0 || IsSpace(rest[0])
    ensures Words(w + rest) == [w] + Words(rest)
  {
    var s := w + rest;
    WordLengthOfWord(w, rest);
    assert s[..|w|] == w;
    assert s[|w|..] == rest;
  }

  /** Splitting words joined with single spaces gives the words back. */
  lemma {:induction false} WordsOfJoin(ws: seq<string>)
    requires forall i :: 0 <= i < |ws| ==> IsWord(ws[i])
    ensures Words(Join(ws)) == ws
  {
    if |ws| == 1 {
      WordsOfWordAndRest(ws[0], "");
      assert ws[0] + "" == ws[0];
      assert Words("") == [];
    } else if |ws| > 1 {
      var t := Join(ws[1..]);
      assert Join(ws) == ws[0] + (" " + t);
      WordsOfWordAndRest(ws[0], " " + t);
      assert (" " + t)[1..] == t;
      WordsOfJoin(ws[1..]);
      assert [ws[0]] + ws[1..] == ws;
    }
  }

  /** Each word of the output is the corresponding token of the input with its first character upper-cased. */
  lemma WordsOfFriendlyText(s: string)
    ensures Words(FriendlyText(s)) == CapitalizeAll(Words(ReplaceUnderscores(s)))
  {
    var cs := CapitalizeAll(Words(ReplaceUnderscores(s)));
    forall i | 0 <= i < |cs|
      ensures IsWord(cs[i])
    {
      CapitalizeIsWord(Words(ReplaceUnderscores(s))[i]);
    }
    WordsOfJoin(cs);
  }

  lemma FriendlyTextOfEmpty()
    ensures FriendlyText("") == ""
  {
    assert ReplaceUnderscores("") == "";
  }

  lemma ReplaceUnderscoresOfWords(ws: seq<string>)
    requires forall i, j :: 0 <= i < |ws| && 0 <= j < |ws[i]| ==> ws[i][j] != '_'
    requires forall i :: 0 <= i < |ws| ==> IsWord(ws[i])
    ensures ReplaceUnderscores(Join(ws)) == Join(ws)
  {
    JoinHasNoUnderscore(ws);
  }

  /** A label that is already friendly is left as it is: `friendly_text` is idempotent. */
  lemma FriendlyTextIdempotent(s: string)
    ensures FriendlyText(FriendlyText(s)) == FriendlyText(s)
  {
    var ws := Words(ReplaceUnderscores(s));
    WordsHaveNoUnderscore(ReplaceUnderscores(s));
    var cs := CapitalizeAll(ws);
    forall i | 0 <= i < |cs|
      ensures IsWord(cs[i])
      ensures forall j :: 0 <= j < |cs[i]| ==> cs[i][j] != '_'
      ensures Capitalize(cs[i]) == cs[i]
    {
      CapitalizeIsWord(ws[i]);
      assert Capitalize(cs[i]) == [Upper(Upper(ws[i][0]))] + ws[i][1..];
    }
    var f := Join(cs);
    ReplaceUnderscoresOfWords(cs);
    WordsOfJoin(cs);
    assert CapitalizeAll(cs) == cs;
  }

  // ---- splitting against the reference ----

  /** Inside a word, the reference copies the rest of the word and carries on after it. */
  lemma {:induction false} SqueezeWord(s: string)
    ensures Squeeze(s, true, false) == s[..WordLength(s)] + Squeeze(s[WordLength(s)..], true, false)
    decreases |s|
  {
    var k := WordLength(s);
    if k == 0 {
      assert s[..0] == "" && s[0..] == s;
    } else {
      SqueezeWord(s[1..]);
      assert WordLength(s[1..]) == k - 1;
      assert s[1..][k - 1..] == s[k..];
      assert s[..k] == [s[0]] + s[1..][..k - 1];
    }
  }

  /** At the start of a word, the reference writes the separator, the whole word, and carries on after it. */
  lemma WordStart(s: string, started: bool)
    requires |s| > 0 && !IsSpace(s[0])
    ensures Squeeze(s, started, started)
            == (if started then " " else "") + s[..WordLength(s)] + Squeeze(s[WordLength(s)..], true, false)
  {
    var k := WordLength(s);
    var t := s[1..];
    SqueezeWord(t);
    assert WordLength(t) == k - 1;
    assert t[k - 1..] == s[k..];
    assert s[..k] == [s[0]] + t[..k - 1];
    Reassociate((if started then " " else "") + [s[0]], t[..k - 1], Squeeze(s[k..], true, false));
  }

  lemma JoinCons(w: string, ws: seq<string>)
    ensures Join([w] + ws) == if ws == [] then w else w + " " + Join(ws)
  {
    if ws != [] {
      assert ([w] + ws)[1..] == ws;
    }
  }

  /**
   * From a word boundary, the reference writes the words `Words` finds,
   * joined by single spaces, after one space when something came before.
   */
  lemma {:induction false} SqueezeWords(s: string, started: bool)
    ensures Squeeze(s, started, started) == if Words(s) == [] then "" else (if started then " " else "") + Join(Words(s))
    decreases |s|
  {
    if |s| > 0 {
      if IsSpace(s[0]) {
        SqueezeWords(s[1..], started);
      } else {
        var k := WordLength(s);
        var w := s[..k];
        var rest := s[k..];
        assert Words(s) == [w] + Words(rest);
        WordStart(s, started);
        AfterWord(rest);
        JoinCons(w, Words(rest));
        if Words(rest) != [] {
          Reassociate((if started then " " else "") + w, " ", Join(Words(rest)));
        }
      }
    }
  }

  /** Right after a word, the reference writes one space before each further word. */
  lemma {:induction false} AfterWord(rest: string)
    requires |rest| == 0 || IsSpace(rest[0])
    ensures Squeeze(rest, true, false) == if Words(rest) == [] then "" else " " + Join(Words(rest))
    decreases |rest|
  {
    if |rest| > 0 {
      SqueezeWords(rest[1..], true);
    }
  }

  /**
   * `str.split()` yields the maximal runs of non-whitespace: joined with
   * single spaces they give the text with its whitespace collapsed. With
   * `WordsOfJoin`, this fixes the words of every input.
   */
  lemma SplitCollapses(s: string)
    ensures Join(Words(s)) == Collapse(s)
  {
    SqueezeWords(s, false);
  }
}
