// The Python str methods the catalog builder relies on: strip(), rstrip(ch),
// replace(ch, ""), startswith, split() on whitespace runs and " ".join.

module PyStr {
  import opened Text

  /** str.isspace() for one character: the characters Python treats as
      whitespace in strip() and split() with no arguments. */
  predicate IsSpace(c: char) {
    || '\t' <= c <= '\r'
    || '\U{1C}' <= c <= ' '
    || c == '\U{85}' || c == '\U{A0}' || c == '\U{1680}'
    || '\U{2000}' <= c <= '\U{200A}'
    || c == '\U{2028}' || c == '\U{2029}' || c == '\U{202F}' || c == '\U{205F}' || c == '\U{3000}'
  }

  predicate NoSpace(s: string) {
    forall k :: 0 <= k < |s| ==> !IsSpace(s[k])
  }

  /** str.lstrip(): drops the leading whitespace run. */
  function LStrip(s: string): (r: string)
    ensures |r| <= |s| && r == s[|s| - |r|..]
    ensures forall k :: 0 <= k < |s| - |r| ==> IsSpace(s[k])
    ensures r == [] || !IsSpace(r[0])
  {
    if s != [] && IsSpace(s[0]) then LStrip(s[1..]) else s
  }

  /** str.rstrip(): drops the trailing whitespace run. */
  function RStrip(s: string): (r: string)
    ensures |r| <= |s| && r == s[..|r|]
    ensures forall k :: |r| <= k < |s| ==> IsSpace(s[k])
    ensures r == [] || !IsSpace(r[|r| - 1])
  {
    if s != [] && IsSpace(s[|s| - 1]) then RStrip(s[..|s| - 1]) else s
  }

  /** str.strip(). */
  function Strip(s: string): (r: string)
    ensures r == [] || (!IsSpace(r[0]) && !IsSpace(r[|r| - 1]))
  {
    RStrip(LStrip(s))
  }

  lemma StripUnchanged(s: string)
    requires s == [] || (!IsSpace(s[0]) && !IsSpace(s[|s| - 1]))
    ensures Strip(s) == s
  {
  }

  lemma StripIdempotent(s: string)
    ensures Strip(Strip(s)) == Strip(s)
  {
    StripUnchanged(Strip(s));
  }

  /** str.rstrip(c) for a single character c: drops the trailing run of c. */
  function RStripChar(s: string, c: char): (r: string)
    ensures |r| <= |s| && r == s[..|r|]
    ensures forall k :: |r| <= k < |s| ==> s[k] == c
    ensures r == [] || r[|r| - 1] != c
  {
    if s != [] && s[|s| - 1] == c then RStripChar(s[..|s| - 1], c) else s
  }

  /** str.replace(c, "") for a single character c. */
  function RemoveChar(s: string, c: char): (r: string)
    ensures c !in r
    ensures forall x :: x != c ==> (x in r <==> x in s)
  {
    if s == [] then ""
    else (if s[0] == c then "" else [s[0]]) + RemoveChar(s[1..], c)
  }

  /** replace(c, "") works on each part of a concatenation in place, so the
      other characters keep their order and their number. */
  lemma {:induction false} RemoveCharAppend(a: string, b: string, c: char)
    ensures RemoveChar(a + b, c) == RemoveChar(a, c) + RemoveChar(b, c)
    decreases |a|
  {
    if a == [] {
      assert a + b == b;
    } else {
      assert (a + b)[0] == a[0];
      assert (a + b)[1..] == a[1..] + b;
      RemoveCharAppend(a[1..], b, c);
    }
  }

  /** One character is dropped exactly when it is c. */
  lemma RemoveCharSingle(x: char, c: char)
    ensures RemoveChar([x], c) == if x == c then "" else [x]
  {
    assert [x][1..] == "";
  }

  /** str.startswith(p). */
  predicate StartsWith(s: string, p: string) {
    |p| <= |s| && s[..|p|] == p
  }

  // ---------------------------------------------------------------------------
  // split() and " ".join
  // ---------------------------------------------------------------------------

  /** The longest prefix of s holding no whitespace. */
  function WordPrefix(s: string): (w: string)
    ensures |w| <= |s| && w == s[..|w|] && NoSpace(w)
    ensures |w| == |s| || IsSpace(s[|w|])
    ensures s != [] && !IsSpace(s[0]) ==> |w| >= 1
  {
    if s == [] || IsSpace(s[0]) then "" else [s[0]] + WordPrefix(s[1..])
  }

  /** str.split() with no arguments: the maximal whitespace-free runs of s, in
      order; leading, trailing and repeated whitespace yield no empty word. */
  function Words(s: string): (ws: seq<string>)
    ensures GoodWords(ws)
    decreases |s|
  {
    var t := LStrip(s);
    if t == [] then []
    else
      var w := WordPrefix(t);
      var rest := Words(t[|w|..]);
      GoodWordsCons(w, rest);
      [w] + rest
  }

  lemma GoodWordsCons(w: string, rest: seq<string>)
    requires w != [] && NoSpace(w) && GoodWords(rest)
    ensures GoodWords([w] + rest)
  {
    var ws := [w] + rest;
    forall k | 0 <= k < |ws| ensures ws[k] != [] && NoSpace(ws[k]) {
      if k > 0 {
        assert ws[k] == rest[k - 1];
      }
    }
  }

  /** What " ".join(ws) joins back without loss: non-empty whitespace-free words. */
  predicate GoodWords(ws: seq<string>) {
    forall k :: 0 <= k < |ws| ==> ws[k] != [] && NoSpace(ws[k])
  }

  /** A string in the form " ".join(s.split()) produces: single ' ' between
      non-empty runs of non-whitespace, nothing at either end. */
  predicate Normalized(r: string) {
    && (r == [] || (!IsSpace(r[0]) && !IsSpace(r[|r| - 1])))
    && (forall k :: 0 <= k < |r| && IsSpace(r[k]) ==> r[k] == ' ')
    && (forall j, k :: 0 <= j < |r| && 0 <= k < |r| && k == j + 1 ==> !(r[j] == ' ' && r[k] == ' '))
  }

  lemma WordPrefixOf(w: string, tail: string)
    requires NoSpace(w)
    requires tail == [] || IsSpace(tail[0])
    ensures WordPrefix(w + tail) == w
  {
    var s := w + tail;
    var p := WordPrefix(s);
    assert forall j :: 0 <= j < |w| ==> s[j] == w[j];
    assert |w| < |s| ==> s[|w|] == tail[0];
    assert |p| == |w|;
    assert p == s[..|w|];
  }

  lemma WordsSkipSpace(c: char, x: string)
    requires IsSpace(c)
    ensures Words([c] + x) == Words(x)
  {
    LStripSkip(c, x);
    WordsOfLStrip([c] + x, x);
  }

  lemma LStripSkip(c: char, x: string)
    requires IsSpace(c)
    ensures LStrip([c] + x) == LStrip(x)
  {
    assert ([c] + x)[1..] == x;
  }

  lemma WordsOfLStrip(a: string, b: string)
    requires LStrip(a) == LStrip(b)
    ensures Words(a) == Words(b)
  {
  }

  lemma WordsStartingWord(w: string, tail: string)
    requires w != [] && NoSpace(w)
    requires tail == [] || IsSpace(tail[0])
    ensures Words(w + tail) == [w] + Words(tail)
  {
    var s := w + tail;
    assert s[0] == w[0];
    assert LStrip(s) == s;
    WordPrefixOf(w, tail);
    assert s[|w|..] == tail;
  }

  lemma {:induction false} WordsOfJoin(ws: seq<string>)
    requires GoodWords(ws)
    ensures Words(Join(ws, ' ')) == ws
    decreases |ws|
  {
    if ws == [] {
    } else if |ws| == 1 {
      WordsOfOne(ws[0]);
    } else {
      GoodWordsTail(ws);
      WordsOfJoin(ws[1..]);
      JoinCons(ws);
      WordsJoinStep(ws[0], ws[1..]);
    }
  }

  lemma WordsOfOne(w: string)
    requires w != [] && NoSpace(w)
    ensures Words(w) == [w]
  {
    assert w + "" == w;
    WordsStartingWord(w, "");
    assert Words("") == [];
  }

  lemma JoinCons(ws: seq<string>)
    requires |ws| >= 2
    ensures Join(ws, ' ') == ws[0] + ([' '] + Join(ws[1..], ' '))
    ensures [ws[0]] + ws[1..] == ws
  {
    var t := Join(ws[1..], ' ');
    assert Join(ws, ' ') == ws[0] + [' '] + t;
    SeqAssoc(ws[0], [' '], t);
    HeadTail(ws);
  }

  lemma SeqAssoc(a: string, b: string, c: string)
    ensures a + b + c == a + (b + c)
  {
  }

  lemma HeadTail(ws: seq<string>)
    requires ws != []
    ensures [ws[0]] + ws[1..] == ws
  {
  }

  lemma GoodWordsTail(ws: seq<string>)
    requires GoodWords(ws) && ws != []
    ensures GoodWords(ws[1..])
  {
    var rest := ws[1..];
    forall k | 0 <= k < |rest| ensures rest[k] != [] && NoSpace(rest[k]) {
      assert rest[k] == ws[k + 1];
    }
  }

  /** A word, a space, then the join of words that split back: the whole
      splits into the word followed by those words. */
  lemma WordsJoinStep(w: string, rest: seq<string>)
    requires w != [] && NoSpace(w)
    requires Words(Join(rest, ' ')) == rest
    ensures Words(w + ([' '] + Join(rest, ' '))) == [w] + rest
  {
    var tail := Join(rest, ' ');
    WordsStartingWord(w, [' '] + tail);
    WordsSkipSpace(' ', tail);
  }

  lemma {:induction false} JoinStart(ws: seq<string>)
    requires GoodWords(ws) && ws != []
    ensures Join(ws, ' ') != [] && Join(ws, ' ')[0] == ws[0][0]
    ensures Join(ws, ' ')[|Join(ws, ' ')| - 1] == ws[|ws| - 1][|ws[|ws| - 1]| - 1]
    decreases |ws|
  {
    if |ws| > 1 {
      JoinStart(ws[1..]);
    }
  }

  lemma {:induction false} JoinNormalized(ws: seq<string>)
    requires GoodWords(ws)
    ensures Normalized(Join(ws, ' '))
    decreases |ws|
  {
    if |ws| == 1 {
      var w := ws[0];
      assert Join(ws, ' ') == w;
    } else if |ws| > 1 {
      var w, rest := ws[0], ws[1..];
      GoodWordsTail(ws);
      JoinNormalized(rest);
      JoinStart(rest);
      assert Join(ws, ' ') == w + [' '] + Join(rest, ' ');
      NormalizedJoinStep(w, Join(rest, ' '));
    }
  }

  /** A word, a space and a non-empty normalised text make a normalised text. */
  lemma NormalizedJoinStep(w: string, tail: string)
    requires w != [] && NoSpace(w)
    requires tail != [] && Normalized(tail)
    ensures Normalized(w + [' '] + tail)
  {
    var r := w + [' '] + tail;
    assert r[0] == w[0] && r[|r| - 1] == tail[|tail| - 1];
    forall k | 0 <= k < |r| && IsSpace(r[k]) ensures r[k] == ' ' {
      if k > |w| {
        assert r[k] == tail[k - |w| - 1];
      }
    }
    forall j, k | 0 <= j < |r| && 0 <= k < |r| && k == j + 1 ensures !(r[j] == ' ' && r[k] == ' ') {
      if j > |w| {
        assert r[j] == tail[j - |w| - 1] && r[k] == tail[j - |w|];
      } else if j == |w| {
        assert r[k] == tail[0];
      } else {
        assert r[j] == w[j];
      }
    }
  }
}
