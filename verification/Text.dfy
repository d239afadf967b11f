/**
 Values of the datastore, and the word-removal step that applies `:remove`.

 A value is a sequence of atoms: an ordinary character, or one whole reference
 `${name}`.  A variable name is its sequence of colon-separated components.
 */
module Text {

  type Name = c: seq<string> | c != [] witness [""]

  /** Components without the leading variable: an override suffix, or a condition (possibly empty). */
  type Suffix = seq<string>

  datatype Atom = Ch(c: char) | Ref(name: Name)

  type Text = seq<Atom>

  /** What both `\s` and `str.split()` treat as white space. */
  predicate IsSpace(a: Atom) {
    && a.Ch?
    && ('\U{9}' <= a.c <= '\U{d}' || '\U{1c}' <= a.c <= '\U{20}' || a.c in "\U{85}\U{a0}\U{1680}"
        || '\U{2000}' <= a.c <= '\U{200a}' || a.c in "\U{2028}\U{2029}\U{202f}\U{205f}\U{3000}")
  }

  function Refs(s: Text): set<Name> {
    set a | a in s && a.Ref? :: a.name
  }

  predicate IsWord(w: Text) {
    w != [] && forall a | a in w :: !IsSpace(a)
  }

  /** `re.split(r'(\s)', s)`: runs without white space, alternating with single white-space atoms. */
  function Tokens(s: Text): (ts: seq<Text>)
    ensures |ts| > 0
  {
    if s == [] then [[]]
    else
      var rest := Tokens(s[1..]);
      if IsSpace(s[0]) then [[], [s[0]]] + rest
      else [[s[0]] + rest[0]] + rest[1..]
  }

  /** `"".join(ts)` */
  function Join(ts: seq<Text>): Text {
    if ts == [] then [] else ts[0] + Join(ts[1..])
  }

  /** The tokens that survive the removal loop. */
  function Keep(ts: seq<Text>, words: set<Text>): seq<Text> {
    if ts == [] then []
    else if ts[0] in words then Keep(ts[1..], words)
    else [ts[0]] + Keep(ts[1..], words)
  }

  /** `s.split()`, as the set of its words. */
  function Words(s: Text): (ws: set<Text>)
    ensures forall w | w in ws :: IsWord(w)
  {
    set w | w in Tokens(s) && IsWord(w)
  }

  function RemoveWords(s: Text, words: set<Text>): Text {
    Join(Keep(Tokens(s), words))
  }

  // ---- What word removal promises --------------------------------------------------------

  /** The shape `Tokens` produces: text, separator, text, ..., text. */
  ghost predicate Alternating(ts: seq<Text>) {
    && |ts| % 2 == 1
    && forall i | 0 <= i < |ts| ::
         if i % 2 == 0 then forall a | a in ts[i] :: !IsSpace(a) else |ts[i]| == 1 && IsSpace(ts[i][0])
  }

  lemma {:induction false} TokensAlternate(s: Text)
    ensures Alternating(Tokens(s))
  {
    if s != [] {
      TokensAlternate(s[1..]);
      var rest := Tokens(s[1..]);
      if IsSpace(s[0]) {
        BlankFirst(s[0], rest);
      } else {
        LetterFirst(s[0], rest);
      }
    }
  }

  lemma BlankFirst(a: Atom, rest: seq<Text>)
    requires Alternating(rest) && IsSpace(a)
    ensures Alternating([[], [a]] + rest)
  {
    var ts := [[], [a]] + rest;
    forall i | 2 <= i < |ts| ensures ts[i] == rest[i - 2] {}
  }

  lemma LetterFirst(a: Atom, rest: seq<Text>)
    requires Alternating(rest) && !IsSpace(a)
    ensures Alternating([[a] + rest[0]] + rest[1..])
  {
    var ts := [[a] + rest[0]] + rest[1..];
    forall i | 1 <= i < |ts| ensures ts[i] == rest[i] {}
    forall b | b in ts[0] ensures !IsSpace(b) {
      assert b == a || b in rest[0];
    }
  }

  lemma {:induction false} JoinTokens(s: Text)
    ensures Join(Tokens(s)) == s
  {
    if s != [] {
      JoinTokens(s[1..]);
      var rest := Tokens(s[1..]);
      if IsSpace(s[0]) {
        calc {
          Join([[], [s[0]]] + rest);
          { assert ([[], [s[0]]] + rest)[1..] == [[s[0]]] + rest; }
          [] + Join([[s[0]]] + rest);
          { assert ([[s[0]]] + rest)[1..] == rest; }
          [s[0]] + Join(rest);
          s;
        }
      } else {
        assert ([[s[0]] + rest[0]] + rest[1..])[1..] == rest[1..];
        assert Join(rest) == rest[0] + Join(rest[1..]);
      }
    }
  }

  /** Tokenising inverts joining on alternating token lists. */
  lemma {:induction false} TokensOfJoin(ts: seq<Text>)
    requires Alternating(ts)
    ensures Tokens(Join(ts)) == ts
    decreases |ts|, if |ts| > 0 then |ts[0]| else 0
  {
    if |ts| == 1 {
      TokensOfWord(ts[0]);
      assert Join(ts) == ts[0] + [];
      assert ts[0] + [] == ts[0];
    } else {
      var rest := ts[2..];
      assert Alternating(rest) by {
        forall i | 0 <= i < |rest| ensures rest[i] == ts[i + 2] {}
      }
      TokensOfJoin(rest);
      assert Join(ts) == ts[0] + (ts[1] + Join(rest)) by {
        assert Join(ts) == ts[0] + Join(ts[1..]);
        assert ts[1..][1..] == rest;
      }
      var sep := ts[1] + Join(rest);
      assert sep[0] == ts[1][0] && sep[1..] == Join(rest);
      assert Tokens(sep) == [[], ts[1]] + rest by { assert [sep[0]] == ts[1]; }
      TokensPrefix(ts[0], sep);
      assert ts[0] + [] == ts[0];
      assert Tokens(sep)[1..] == ts[1..];
    }
  }

  lemma {:induction false} TokensOfWord(w: Text)
    requires forall a | a in w :: !IsSpace(a)
    ensures Tokens(w) == [w]
  {
    if w != [] {
      TokensOfWord(w[1..]);
      assert [w[0]] + w[1..] == w;
    }
  }

  /** Prepending text without white space only lengthens the first token. */
  lemma {:induction false} TokensPrefix(w: Text, s: Text)
    requires forall a | a in w :: !IsSpace(a)
    ensures Tokens(w + s) == [w + Tokens(s)[0]] + Tokens(s)[1..]
  {
    if w == [] {
      assert w + s == s;
      assert w + Tokens(s)[0] == Tokens(s)[0];
    } else {
      TokensPrefix(w[1..], s);
      assert (w + s)[1..] == w[1..] + s;
      assert [w[0]] + (w[1..] + Tokens(s)[0]) == w + Tokens(s)[0];
    }
  }

  /** The same token list with every removed word blanked. */
  function Blank(ts: seq<Text>, words: set<Text>): (r: seq<Text>)
    ensures |r| == |ts|
  {
    seq(|ts|, i requires 0 <= i < |ts| => if ts[i] in words then [] else ts[i])
  }

  lemma {:induction false} KeepJoinsLikeBlank(ts: seq<Text>, words: set<Text>)
    ensures Join(Keep(ts, words)) == Join(Blank(ts, words))
  {
    if ts != [] {
      KeepJoinsLikeBlank(ts[1..], words);
      assert Blank(ts, words)[1..] == Blank(ts[1..], words);
      if ts[0] !in words {
        assert ([ts[0]] + Keep(ts[1..], words))[1..] == Keep(ts[1..], words);
      }
    }
  }

  /**
   Removing words blanks exactly the tokens that are removed words: every other
   word and every white-space atom survives, in its place.
   */
  lemma {:induction false} RemoveWordsBlanks(s: Text, words: set<Text>)
    requires forall w | w in words :: IsWord(w)
    ensures Tokens(RemoveWords(s, words)) == Blank(Tokens(s), words)
  {
    var ts := Tokens(s);
    TokensAlternate(s);
    KeepJoinsLikeBlank(ts, words);
    var b := Blank(ts, words);
    assert Alternating(b) by {
      forall i | 0 <= i < |b| && i % 2 == 1 ensures b[i] == ts[i] {
        var sep := ts[i];
        assert sep[0] in sep;
      }
    }
    TokensOfJoin(b);
  }

  /** Consequently no removed word is left, and the words left are the old ones minus those removed. */
  lemma {:induction false} RemoveWordsExact(s: Text, words: set<Text>)
    requires forall w | w in words :: IsWord(w)
    ensures Words(RemoveWords(s, words)) == Words(s) - words
  {
    RemoveWordsBlanks(s, words);
    var ts, b := Tokens(s), Blank(Tokens(s), words);
    forall w | w in Words(s) - words ensures w in b {
      var i :| 0 <= i < |ts| && ts[i] == w;
      assert b[i] == w;
    }
    forall w | w in b && IsWord(w) ensures w in Words(s) - words {
      var i :| 0 <= i < |b| && b[i] == w;
      assert ts[i] == w;
    }
  }

  /** Word removal introduces no atom. */
  lemma {:induction false} JoinKeepAtoms(ts: seq<Text>, words: set<Text>)
    ensures forall a | a in Join(Keep(ts, words)) :: a in Join(ts)
  {
    if ts != [] {
      JoinKeepAtoms(ts[1..], words);
      if ts[0] !in words {
        assert ([ts[0]] + Keep(ts[1..], words))[1..] == Keep(ts[1..], words);
      }
    }
  }

  lemma RemoveWordsRefs(s: Text, words: set<Text>)
    ensures Refs(RemoveWords(s, words)) <= Refs(s)
  {
    JoinTokens(s);
    JoinKeepAtoms(Tokens(s), words);
  }

  /** Removing further words makes a difference exactly if one of them is there to be removed. */
  lemma RemoveMoreExact(s: Text, words: set<Text>, more: set<Text>)
    requires (forall w | w in words :: IsWord(w)) && forall w | w in more :: IsWord(w)
    ensures RemoveWords(s, words + more) == RemoveWords(s, words) <==>
            forall t | t in Tokens(s) :: t in more ==> t in words
  {
    RemoveWordsBlanks(s, words);
    RemoveWordsBlanks(s, words + more);
    var ts := Tokens(s);
    if RemoveWords(s, words + more) == RemoveWords(s, words) {
      forall t | t in ts && t in more ensures t in words {
        var i :| 0 <= i < |ts| && ts[i] == t;
        assert Blank(ts, words + more)[i] == Blank(ts, words)[i];
      }
    } else if forall t | t in ts :: t in more ==> t in words {
      KeepSame(ts, words, words + more);
    }
  }

  lemma {:induction false} KeepSame(ts: seq<Text>, words: set<Text>, all: set<Text>)
    requires forall t | t in ts :: t in words <==> t in all
    ensures Keep(ts, words) == Keep(ts, all)
  {
    if ts != [] {
      KeepSame(ts[1..], words, all);
    }
  }

  // ---- White space ---------------------------------------------------------------------------

  /** Of the ASCII characters: the blank, tab to carriage return, and the four separators. */
  lemma AsciiSpaces(c: char)
    requires c < '\U{80}'
    ensures IsSpace(Ch(c)) <==> c in " \t\n\r\U{b}\U{c}\U{1c}\U{1d}\U{1e}\U{1f}"
  {
    var all := " \t\n\r\U{b}\U{c}\U{1c}\U{1d}\U{1e}\U{1f}";
    assert all[0] == '\U{20}' && all[1] == '\U{9}' && all[2] == '\U{a}' && all[3] == '\U{d}';
    assert all[4] == '\U{b}' && all[5] == '\U{c}';
    assert all[6] == '\U{1c}' && all[7] == '\U{1d}' && all[8] == '\U{1e}' && all[9] == '\U{1f}';
  }
}
