// The indenting word wrapper and the escape-aware consumer it reads words with.
module WordWrap {
  import opened JoinPrune

  type Test = char -> bool

  // The source's unsigned integers, which wrap.
  const TWO_32: nat := 0x1_0000_0000

  type Unsigned = n: nat | n < TWO_32

  function Wrap(n: nat): Unsigned {
    n % TWO_32
  }

  lemma WrapSum(m: nat, n: nat)
    ensures Wrap(m + Wrap(n)) == Wrap(m + n)
    ensures Wrap(Wrap(m) + Wrap(n)) == Wrap(m + n)
    ensures Wrap(Wrap(m) + n) == Wrap(m + n)
  {
    var j, k := m / TWO_32, n / TWO_32;
    WrapOff(m + Wrap(n), k);
    WrapOff(Wrap(m) + n, j);
    WrapOff(Wrap(m) + Wrap(n), j + k);
    hide Wrap;
  }

  lemma WrapOff(n: nat, k: nat)
    ensures Wrap(n + TWO_32 * k) == Wrap(n)
  {
  }

  lemma WrapZero()
    ensures Wrap(0) == 0
  {
  }

  // ---- Words ----

  // The symbols of the word that starts at i: an escape symbol before a white
  // space or escape symbol stands for that symbol; otherwise it stands for itself.
  function Word(s: string, i: nat, ws: Test, esc: Test): string
    requires i <= |s|
    decreases |s| - i
  {
    if i == |s| then ""
    else if esc(s[i]) then
      if i + 1 == |s| then [s[i]]
      else if !ws(s[i + 1]) && !esc(s[i + 1]) then [s[i], s[i + 1]] + Word(s, i + 2, ws, esc)
      else [s[i + 1]] + Word(s, i + 2, ws, esc)
    else if ws(s[i]) then ""
    else [s[i]] + Word(s, i + 1, ws, esc)
  }

  // The position behind it.
  function WordEnd(s: string, i: nat, ws: Test, esc: Test): (e: nat)
    requires i <= |s|
    ensures i <= e <= |s|
    ensures e < |s| ==> ws(s[e])
    ensures i < |s| && !ws(s[i]) ==> i < e
    decreases |s| - i
  {
    if i == |s| then i
    else if esc(s[i]) then if i + 1 == |s| then i + 1 else WordEnd(s, i + 2, ws, esc)
    else if ws(s[i]) then i
    else WordEnd(s, i + 1, ws, esc)
  }

  // The first symbol from i on that is no white space.
  function Skip(s: string, i: nat, ws: Test): (r: nat)
    requires i <= |s|
    ensures i <= r <= |s|
    ensures r < |s| ==> !ws(s[r])
    decreases |s| - i
  {
    if i == |s| || !ws(s[i]) then i else Skip(s, i + 1, ws)
  }

  // The words from i on.
  function Words(s: string, i: nat, ws: Test, esc: Test): seq<string>
    requires i <= |s|
    decreases |s| - i
  {
    var p := Skip(s, i, ws);
    if p == |s| then [] else [Word(s, p, ws, esc)] + Words(s, WordEnd(s, p, ws, esc), ws, esc)
  }

  lemma Moved(a: string, b: string, c: string)
    ensures a + (b + c) == (a + b) + c
  {
  }

  // What the word that starts at i adds to the symbols read before it.
  lemma WordUnfold(s: string, i: nat, ws: Test, esc: Test, done: string)
    requires i < |s|
    ensures !esc(s[i]) && ws(s[i]) ==> done + Word(s, i, ws, esc) == done && WordEnd(s, i, ws, esc) == i
    ensures !esc(s[i]) && !ws(s[i]) ==>
              && done + Word(s, i, ws, esc) == (done + [s[i]]) + Word(s, i + 1, ws, esc)
              && WordEnd(s, i, ws, esc) == WordEnd(s, i + 1, ws, esc)
    ensures esc(s[i]) && i + 1 == |s| ==>
              done + Word(s, i, ws, esc) == done + [s[i]] && WordEnd(s, i, ws, esc) == i + 1
    ensures esc(s[i]) && i + 1 < |s| ==>
              && done + Word(s, i, ws, esc)
              == (if !ws(s[i + 1]) && !esc(s[i + 1]) then done + [s[i]] + [s[i + 1]] else done + [s[i + 1]])
                 + Word(s, i + 2, ws, esc)
              && WordEnd(s, i, ws, esc) == WordEnd(s, i + 2, ws, esc)
  {
    if !esc(s[i]) {
      if ws(s[i]) {
        assert done + "" == done;
      } else {
        Moved(done, [s[i]], Word(s, i + 1, ws, esc));
      }
    } else if i + 1 < |s| {
      var w := Word(s, i + 2, ws, esc);
      if !ws(s[i + 1]) && !esc(s[i + 1]) {
        Moved(done, [s[i], s[i + 1]], w);
        assert done + [s[i], s[i + 1]] == done + [s[i]] + [s[i + 1]];
      } else {
        Moved(done, [s[i + 1]], w);
      }
    }
  }

  lemma WordDone(s: string, ws: Test, esc: Test, done: string)
    ensures done + Word(s, |s|, ws, esc) == done && WordEnd(s, |s|, ws, esc) == |s|
  {
  }

  // Reads the symbols of a word and counts them; ConsumeIfUnlessEscaped with the
  // test for white space negated.
  method Consume(s: string, first: nat, ws: Test, esc: Test) returns (count: Unsigned, pos: nat, consumed: string)
    requires first <= |s|
    ensures consumed == Word(s, first, ws, esc) && count == Wrap(|consumed|)
    ensures pos == WordEnd(s, first, ws, esc)
  {
    hide Word, WordEnd, Wrap;
    count, pos, consumed := 0, first, "";
    var escaping, e := false, ' ';
    WrapZero();
    assert "" + Word(s, first, ws, esc) == Word(s, first, ws, esc);
    while pos < |s|
      invariant first <= pos <= |s| && count == Wrap(|consumed|)
      invariant escaping ==> first < pos && e == s[pos - 1] && esc(e)
      invariant var i := if escaping then pos - 1 else pos;
                && consumed + Word(s, i, ws, esc) == Word(s, first, ws, esc)
                && WordEnd(s, i, ws, esc) == WordEnd(s, first, ws, esc)
    {
      var c := s[pos];
      WordUnfold(s, if escaping then pos - 1 else pos, ws, esc, consumed);
      WrapSum(|consumed|, 1);
      WrapSum(|consumed| + 1, 1);
      if !escaping {
        if esc(c) {
          e, escaping := c, true;
        } else {
          if ws(c) {
            return;
          }
          consumed := consumed + [c];
          count := Wrap(count + 1);
        }
      } else {
        if !ws(c) && !esc(c) {
          consumed := consumed + [e];
          count := Wrap(count + 1);
        }
        escaping := false;
        consumed := consumed + [c];
        count := Wrap(count + 1);
      }
      pos := pos + 1;
    }
    if escaping {
      WordUnfold(s, pos - 1, ws, esc, consumed);
      WrapSum(|consumed|, 1);
      consumed := consumed + [e];
      count := Wrap(count + 1);
    } else {
      WordDone(s, ws, esc, consumed);
    }
  }

  // ---- Escaping ----

  // Text in which every white space and escape symbol is escaped.
  function Escape(t: string, e: char, ws: Test, esc: Test): string {
    if t == "" then ""
    else (if ws(t[0]) || esc(t[0]) then [e, t[0]] else [t[0]]) + Escape(t[1..], e, ws, esc)
  }

  lemma SuffixStep(s: string, i: nat, head: string, rest: string)
    requires i <= |s| && s[i..] == head + rest
    ensures i + |head| <= |s| && s[i + |head|..] == rest
    ensures forall k :: 0 <= k < |head| ==> s[i + k] == head[k]
  {
    assert forall k :: 0 <= k < |head| ==> s[i..][k] == s[i + k];
    assert forall k :: 0 <= k < |rest| ==> s[i..][|head| + k] == rest[k];
  }

  // Any text, escaped, is read back as one word, up to the end or to white space
  // that is not an escape symbol.
  lemma {:induction false} EscapedIsOneWord(s: string, i: nat, t: string, post: string, e: char, ws: Test, esc: Test)
    requires i <= |s| && s[i..] == Escape(t, e, ws, esc) + post
    requires esc(e)
    requires post == "" || (ws(post[0]) && !esc(post[0]))
    ensures Word(s, i, ws, esc) == t
    ensures WordEnd(s, i, ws, esc) == i + |Escape(t, e, ws, esc)|
    decreases |t|
  {
    hide Escape, Word, WordEnd;
    if t == "" {
      EscapedEnd(s, i, post, e, ws, esc);
    } else {
      EscapeUnfold(t, e, ws, esc);
      var head := if ws(t[0]) || esc(t[0]) then [e, t[0]] else [t[0]];
      var tail := Escape(t[1..], e, ws, esc);
      Moved(head, tail, post);
      SuffixStep(s, i, head, tail + post);
      EscapedIsOneWord(s, i + |head|, t[1..], post, e, ws, esc);
      EscapedStep(s, i, t[0], e, ws, esc);
    }
  }

  lemma EscapedEnd(s: string, i: nat, post: string, e: char, ws: Test, esc: Test)
    requires i <= |s| && s[i..] == Escape("", e, ws, esc) + post
    requires post == "" || (ws(post[0]) && !esc(post[0]))
    ensures Word(s, i, ws, esc) == "" && WordEnd(s, i, ws, esc) == i + |Escape("", e, ws, esc)|
  {
    assert s[i..] == post;
    assert post != "" ==> s[i] == s[i..][0];
  }

  // Text without white space in which every escape symbol stands before an ordinary
  // symbol, or at the very end, is read as it is.
  ghost predicate Plain(t: string, last: bool, ws: Test, esc: Test) {
    && (forall k :: 0 <= k < |t| ==> !ws(t[k]))
    && (forall k :: 0 <= k < |t| ==> Ordinary(t, k, last, esc))
  }

  ghost predicate Ordinary(t: string, k: nat, last: bool, esc: Test)
    requires k < |t|
  {
    esc(t[k]) ==> if k + 1 < |t| then !esc(t[k + 1]) else last
  }

  lemma {:induction false} PlainIsOneWord(s: string, i: nat, t: string, post: string, ws: Test, esc: Test)
    requires i <= |s| && s[i..] == t + post
    requires Plain(t, post == "", ws, esc)
    requires post == "" || (ws(post[0]) && !esc(post[0]))
    ensures Word(s, i, ws, esc) == t && WordEnd(s, i, ws, esc) == i + |t|
    decreases |t|
  {
    hide Word, WordEnd, Plain;
    if t == "" {
      PlainEnd(s, i, post, ws, esc);
    } else {
      var n := if esc(t[0]) && |t| > 1 then 2 else 1;
      var head, tail := t[..n], t[n..];
      assert t == head + tail;
      Moved(head, tail, post);
      SuffixStep(s, i, head, tail + post);
      assert s[i + 0] == head[0];
      assert n == 2 ==> s[i + 1] == head[1];
      PlainTail(t, n, post == "", ws, esc);
      PlainHead(t, post == "", ws, esc);
      PlainIsOneWord(s, i + n, tail, post, ws, esc);
      PlainStep(s, i, ws, esc);
      if n == 1 && esc(t[0]) {
        assert tail + post == "";
        PlainEnd(s, i + 1, "", ws, esc);
      }
    }
  }

  lemma PlainHead(t: string, last: bool, ws: Test, esc: Test)
    requires Plain(t, last, ws, esc) && t != ""
    ensures !ws(t[0])
    ensures esc(t[0]) ==> if |t| > 1 then !ws(t[1]) && !esc(t[1]) else last
  {
    assert Ordinary(t, 0, last, esc);
  }

  lemma PlainTail(t: string, n: nat, last: bool, ws: Test, esc: Test)
    requires Plain(t, last, ws, esc) && n <= |t|
    ensures Plain(t[n..], last, ws, esc)
  {
    var u := t[n..];
    assert forall k :: 0 <= k < |u| ==> u[k] == t[n + k];
    forall k | 0 <= k < |u|
      ensures Ordinary(u, k, last, esc)
    {
      assert Ordinary(t, n + k, last, esc);
    }
  }

  // A plain symbol, or an escape symbol and the ordinary one behind it.
  lemma PlainStep(s: string, i: nat, ws: Test, esc: Test)
    requires i < |s| && !ws(s[i])
    ensures !esc(s[i]) ==>
              && Word(s, i, ws, esc) == [s[i]] + Word(s, i + 1, ws, esc)
              && WordEnd(s, i, ws, esc) == WordEnd(s, i + 1, ws, esc)
    ensures esc(s[i]) && i + 1 < |s| && !ws(s[i + 1]) && !esc(s[i + 1]) ==>
              && Word(s, i, ws, esc) == [s[i], s[i + 1]] + Word(s, i + 2, ws, esc)
              && WordEnd(s, i, ws, esc) == WordEnd(s, i + 2, ws, esc)
    ensures esc(s[i]) && i + 1 == |s| ==> Word(s, i, ws, esc) == [s[i]] && WordEnd(s, i, ws, esc) == i + 1
  {
  }

  lemma PlainEnd(s: string, i: nat, post: string, ws: Test, esc: Test)
    requires i <= |s| && s[i..] == "" + post
    requires post == "" || (ws(post[0]) && !esc(post[0]))
    ensures Word(s, i, ws, esc) == "" && WordEnd(s, i, ws, esc) == i
  {
    assert s[i..] == post;
    assert post != "" ==> s[i] == s[i..][0];
  }

  lemma EscapeUnfold(t: string, e: char, ws: Test, esc: Test)
    requires t != ""
    ensures Escape(t, e, ws, esc)
         == (if ws(t[0]) || esc(t[0]) then [e, t[0]] else [t[0]]) + Escape(t[1..], e, ws, esc)
    ensures [t[0]] + t[1..] == t
  {
  }

  lemma EscapedStep(s: string, i: nat, c: char, e: char, ws: Test, esc: Test)
    requires esc(e)
    requires if ws(c) || esc(c) then i + 2 <= |s| && s[i] == e && s[i + 1] == c else i < |s| && s[i] == c
    ensures var n := if ws(c) || esc(c) then 2 else 1;
            && Word(s, i, ws, esc) == [c] + Word(s, i + n, ws, esc)
            && WordEnd(s, i, ws, esc) == WordEnd(s, i + n, ws, esc)
  {
  }

  // Texts, each escaped, with white space between them.
  function EscapedTexts(ts: seq<string>, sp: char, e: char, ws: Test, esc: Test): string {
    if ts == [] then ""
    else Escape(ts[0], e, ws, esc) + (if |ts| == 1 then "" else [sp] + EscapedTexts(ts[1..], sp, e, ws, esc))
  }

  lemma EscapeStart(t: string, e: char, ws: Test, esc: Test)
    requires t != "" && !ws(e)
    ensures Escape(t, e, ws, esc) != "" && !ws(Escape(t, e, ws, esc)[0])
  {
  }

  lemma WordsPassSpace(s: string, i: nat, ws: Test, esc: Test)
    requires i < |s| && ws(s[i])
    ensures Words(s, i, ws, esc) == Words(s, i + 1, ws, esc)
  {
    assert Skip(s, i, ws) == Skip(s, i + 1, ws);
    hide Skip, Word, WordEnd;
  }

  lemma WordsStart(s: string, i: nat, ws: Test, esc: Test)
    requires i < |s| && !ws(s[i])
    ensures Words(s, i, ws, esc) == [Word(s, i, ws, esc)] + Words(s, WordEnd(s, i, ws, esc), ws, esc)
  {
    assert Skip(s, i, ws) == i;
    hide Skip, Word, WordEnd;
  }

  // Any texts that are not empty are read back as the words of their escaped form.
  lemma {:induction false} EscapedWords(s: string, i: nat, ts: seq<string>, sp: char, e: char, ws: Test, esc: Test)
    requires i <= |s| && s[i..] == EscapedTexts(ts, sp, e, ws, esc)
    requires esc(e) && !ws(e) && ws(sp) && !esc(sp)
    requires forall t :: t in ts ==> t != ""
    ensures Words(s, i, ws, esc) == ts
    decreases |ts|
  {
    hide *;
    TextsUnfold(ts, sp, e, ws, esc);
    if ts == [] {
      NoWords(s, i, ws, esc);
    } else if |ts| == 1 {
      OneEscapedWord(s, i, ts[0], "", e, ws, esc);
      NoWords(s, i + |Escape(ts[0], e, ws, esc)|, ws, esc);
    } else {
      var end := i + |Escape(ts[0], e, ws, esc)|;
      var rest := EscapedTexts(ts[1..], sp, e, ws, esc);
      OneEscapedWord(s, i, ts[0], [sp] + rest, e, ws, esc);
      PassSpace(s, end, sp, rest, ws, esc);
      EscapedWords(s, end + 1, ts[1..], sp, e, ws, esc);
    }
  }

  lemma TextsUnfold(ts: seq<string>, sp: char, e: char, ws: Test, esc: Test)
    ensures ts == [] ==> EscapedTexts(ts, sp, e, ws, esc) == ""
    ensures ts != [] ==> ts == [ts[0]] + ts[1..] && ts[0] in ts && forall t :: t in ts[1..] ==> t in ts
    ensures |ts| == 1 ==> EscapedTexts(ts, sp, e, ws, esc) == Escape(ts[0], e, ws, esc) + "" && ts == [ts[0]] + []
    ensures |ts| > 1 ==>
              var rest := EscapedTexts(ts[1..], sp, e, ws, esc);
              EscapedTexts(ts, sp, e, ws, esc) == Escape(ts[0], e, ws, esc) + ([sp] + rest)
  {
    hide Escape;
  }

  // The first word of a text that begins with an escaped one.
  lemma OneEscapedWord(s: string, i: nat, t: string, rest: string, e: char, ws: Test, esc: Test)
    requires i <= |s| && s[i..] == Escape(t, e, ws, esc) + rest
    requires t != "" && esc(e) && !ws(e)
    requires rest == "" || (ws(rest[0]) && !esc(rest[0]))
    ensures i + |Escape(t, e, ws, esc)| <= |s| && s[i + |Escape(t, e, ws, esc)|..] == rest
    ensures Words(s, i, ws, esc) == [t] + Words(s, i + |Escape(t, e, ws, esc)|, ws, esc)
  {
    hide *;
    var head := Escape(t, e, ws, esc);
    EscapeStart(t, e, ws, esc);
    SuffixStep(s, i, head, rest);
    EscapedIsOneWord(s, i, t, rest, e, ws, esc);
    assert s[i + 0] == head[0];
    WordsStart(s, i, ws, esc);
  }

  lemma PassSpace(s: string, i: nat, sp: char, rest: string, ws: Test, esc: Test)
    requires i <= |s| && s[i..] == [sp] + rest && ws(sp)
    ensures i < |s| && s[i + 1..] == rest && Words(s, i, ws, esc) == Words(s, i + 1, ws, esc)
  {
    hide *;
    SuffixStep(s, i, [sp], rest);
    assert s[i + 0] == sp;
    WordsPassSpace(s, i, ws, esc);
  }

  lemma NoWords(s: string, i: nat, ws: Test, esc: Test)
    requires i <= |s| && s[i..] == ""
    ensures Words(s, i, ws, esc) == []
  {
  }

  // ---- The layout of a block ----

  // The indents and the exclusive width limits of the first line and of the others.
  datatype Shape = Shape(line1indent: Unsigned, line1maxWidth: Unsigned, indent: Unsigned, maxWidth: Unsigned) {
    function IndentOf(k: nat): Unsigned {
      if k == 0 then line1indent else indent
    }

    function LimitOf(k: nat): Unsigned {
      if k == 0 then line1maxWidth else maxWidth
    }
  }

  function Spaces(n: nat, sp: char): string {
    seq(n, _ => sp)
  }

  // A line is a list of words.
  function Joined(line: seq<string>, sp: char): string {
    if line == [] then ""
    else if |line| == 1 then line[0]
    else Joined(line[..|line| - 1], sp) + [sp] + line[|line| - 1]
  }

  // The column behind line k.
  function Column(sh: Shape, k: nat, line: seq<string>): nat {
    sh.IndentOf(k) + |Joined(line, ' ')|
  }

  function Render(sh: Shape, lines: seq<seq<string>>, sp: char, nl: string): string {
    if lines == [] then ""
    else
      var k := |lines| - 1;
      Render(sh, lines[..k], sp, nl) + (if k == 0 then "" else nl) + Spaces(sh.IndentOf(k), sp) + Joined(lines[k], sp)
  }

  function Concat(lines: seq<seq<string>>): seq<string> {
    if lines == [] then [] else Concat(lines[..|lines| - 1]) + lines[|lines| - 1]
  }

  // The tracked column behind line k; none if the line has reached its limit.
  function Tracked(sh: Shape, k: nat, line: seq<string>): Option<Unsigned> {
    if line == [] then Some(sh.IndentOf(k))
    else
      var n := |line| - 1;
      match Tracked(sh, k, line[..n])
      case None => None
      case Some(c) =>
        var c' := Wrap(c + (if n == 0 then 0 else 1) + |line[n]|);
        if c' < sh.LimitOf(k) then Some(c') else None
  }

  // The word is put in line k behind the others.
  predicate Joins(sh: Shape, k: nat, line: seq<string>, w: string) {
    line != [] && Tracked(sh, k, line + [w]).Some?
  }

  // Each word of line k joins those before it.
  ghost predicate Together(sh: Shape, k: nat, line: seq<string>) {
    line != [] && forall m :: 0 < m < |line| ==> Joins(sh, k, line[..m], line[m])
  }

  // A line is ended only when the next word does not join it.
  ghost predicate Wrapped(sh: Shape, lines: seq<seq<string>>) {
    lines == [] ||
    (var n := |lines| - 1;
     && Wrapped(sh, lines[..n])
     && Together(sh, n, lines[n])
     && (n > 0 ==> !Joins(sh, n - 1, lines[n - 1], lines[n][0])))
  }

  // The lines hold the words in order, and as many as join in each.
  ghost predicate Greedy(sh: Shape, lines: seq<seq<string>>, words: seq<string>) {
    Concat(lines) == words && Wrapped(sh, lines)
  }

  lemma {:induction false} JoinedLength(line: seq<string>, sp: char, sp': char)
    ensures |Joined(line, sp)| == |Joined(line, sp')|
  {
    if |line| > 1 {
      JoinedLength(line[..|line| - 1], sp, sp');
    }
  }

  lemma JoinedMore(line: seq<string>, w: string, sp: char)
    requires line != []
    ensures Joined(line + [w], sp) == Joined(line, sp) + [sp] + w
  {
    assert (line + [w])[..|line|] == line;
  }

  lemma LinesMore(sh: Shape, lines: seq<seq<string>>, line: seq<string>, sp: char, nl: string)
    ensures Concat(lines + [line]) == Concat(lines) + line
    ensures Wrapped(sh, lines + [line]) <==>
              && Wrapped(sh, lines) && Together(sh, |lines|, line)
              && (lines != [] ==> !Joins(sh, |lines| - 1, lines[|lines| - 1], line[0]))
    ensures Render(sh, lines + [line], sp, nl)
         == Render(sh, lines, sp, nl) + (if lines == [] then "" else nl)
            + Spaces(sh.IndentOf(|lines|), sp) + Joined(line, sp)
  {
    hide Together, Joins, Spaces, Joined;
    assert (lines + [line])[..|lines|] == lines;
    assert Together(sh, |lines|, line) ==> line != [] by {
      TogetherSome(sh, |lines|, line);
    }
  }

  lemma TogetherSome(sh: Shape, k: nat, line: seq<string>)
    ensures Together(sh, k, line) ==> line != []
  {
  }

  lemma TogetherMore(sh: Shape, k: nat, line: seq<string>, w: string)
    requires line != []
    ensures Together(sh, k, line + [w]) <==> Together(sh, k, line) && Joins(sh, k, line, w)
  {
    hide Joins;
    var more := line + [w];
    assert more[..|line|] == line && more[|line|] == w;
    assert forall m :: 0 < m < |line| ==> more[..m] == line[..m] && more[m] == line[m];
  }

  lemma TrackedMore(sh: Shape, k: nat, line: seq<string>, w: string)
    ensures Tracked(sh, k, line + [w])
         == match Tracked(sh, k, line)
            case None => None
            case Some(c) =>
              var c' := Wrap(c + (if line == [] then 0 else 1) + |w|);
              if c' < sh.LimitOf(k) then Some(c') else None
  {
    assert (line + [w])[..|line|] == line;
  }

  // ---- The true columns ----

  // Line k stays below its limit unless it is a single word.
  ghost predicate Fitting(sh: Shape, k: nat, line: seq<string>) {
    line != [] && (|line| == 1 || Column(sh, k, line) < sh.LimitOf(k))
  }

  // Line k has no room for the first word of the next line.
  ghost predicate NoRoom(sh: Shape, k: nat, line: seq<string>, next: seq<string>) {
    next != [] && Column(sh, k, line) + 1 + |next[0]| >= sh.LimitOf(k)
  }

  // The indents are below the limits, as the wrapper checks.
  predicate Proper(sh: Shape) {
    sh.line1indent < sh.line1maxWidth && sh.indent < sh.maxWidth
  }

  lemma ColumnMore(sh: Shape, k: nat, line: seq<string>, w: string)
    ensures Column(sh, k, line + [w]) == Column(sh, k, line) + (if line == [] then 0 else 1) + |w|
  {
    if line != [] {
      JoinedMore(line, w, ' ');
    } else {
      assert [] + [w] == [w];
    }
  }

  // The tracked column is never above the true one, and is that up to 2^32.
  ghost predicate Tracks(sh: Shape, k: nat, line: seq<string>) {
    var t, c := Tracked(sh, k, line), Column(sh, k, line);
    && (t.None? ==> c >= sh.LimitOf(k))
    && (t.Some? ==> t.value <= c && t.value < sh.LimitOf(k))
    && (c < TWO_32 ==> t == if c < sh.LimitOf(k) then Some(c) else None)
  }

  lemma {:induction false} TrackedBelow(sh: Shape, k: nat, line: seq<string>)
    requires Proper(sh)
    ensures Tracks(sh, k, line)
  {
    if line == [] {
      assert Column(sh, k, []) == sh.IndentOf(k);
    } else {
      var n := |line| - 1;
      assert line == line[..n] + [line[n]];
      TrackedBelow(sh, k, line[..n]);
      TrackedStep(sh, k, line[..n], line[n]);
    }
  }

  lemma TrackedStep(sh: Shape, k: nat, line: seq<string>, w: string)
    requires Tracks(sh, k, line)
    ensures Tracks(sh, k, line + [w])
  {
    hide Column, Tracked;
    TrackedMore(sh, k, line, w);
    ColumnMore(sh, k, line, w);
  }

  // A word that does not join a line would not fit, whatever the lengths.
  lemma NotJoined(sh: Shape, k: nat, line: seq<string>, next: seq<string>)
    requires Proper(sh) && line != [] && next != [] && !Joins(sh, k, line, next[0])
    ensures NoRoom(sh, k, line, next)
  {
    hide Tracked, Column;
    TrackedBelow(sh, k, line + [next[0]]);
    ColumnMore(sh, k, line, next[0]);
  }

  // A line of several words stays below its limit exactly if its column did not wrap.
  lemma TogetherFits(sh: Shape, k: nat, line: seq<string>)
    requires Proper(sh) && Together(sh, k, line)
    ensures Fitting(sh, k, line) <==> |line| == 1 || Column(sh, k, line) < TWO_32
  {
    hide Tracked, Column;
    if |line| > 1 {
      var n := |line| - 1;
      assert Joins(sh, k, line[..n], line[n]);
      assert line[..n] + [line[n]] == line;
      TrackedBelow(sh, k, line);
    }
  }

  // No word is so long that a column could wrap.
  ghost predicate Short(sh: Shape, words: seq<string>) {
    forall w :: w in words ==> |w| + sh.line1maxWidth < TWO_32 && |w| + sh.maxWidth < TWO_32
  }

  lemma {:induction false} ShortFits(sh: Shape, k: nat, line: seq<string>)
    requires Proper(sh) && Together(sh, k, line) && Short(sh, line)
    ensures Column(sh, k, line) < TWO_32
  {
    hide Tracked, Column;
    var n := |line| - 1;
    var p, w := line[..n], line[n];
    assert line == p + [w];
    assert w in line && forall x :: x in p ==> x in line;
    ColumnMore(sh, k, p, w);
    if n > 0 {
      TogetherMore(sh, k, p, w);
      ShortFits(sh, k, p);
      TrackedBelow(sh, k, p);
      TrackedMore(sh, k, p, w);
    } else {
      ColumnNone(sh, k);
    }
  }

  lemma ColumnNone(sh: Shape, k: nat)
    ensures Column(sh, k, []) == sh.IndentOf(k)
  {
  }

  // What the greedy lines are by their true columns, whatever the lengths: a line is
  // ended only when the next word would not fit, and each line is below its limit or a
  // single word exactly if the column of no line of several words wraps, which it does
  // not if all words are short.
  lemma GreedyFits(sh: Shape, lines: seq<seq<string>>, words: seq<string>)
    requires Proper(sh) && Greedy(sh, lines, words)
    ensures forall k :: 0 < k < |lines| ==> NoRoom(sh, k - 1, lines[k - 1], lines[k])
    ensures forall k :: 0 <= k < |lines| ==>
              (Fitting(sh, k, lines[k]) <==> |lines[k]| == 1 || Column(sh, k, lines[k]) < 0x1_0000_0000)
    ensures Short(sh, words) ==> forall k :: 0 <= k < |lines| ==> Fitting(sh, k, lines[k])
  {
    hide Wrapped, Together, Joins, NoRoom, Fitting, Column, Concat;
    forall k | 0 < k < |lines|
      ensures NoRoom(sh, k - 1, lines[k - 1], lines[k])
    {
      WrappedAt(sh, lines, k - 1);
      TogetherSome(sh, k - 1, lines[k - 1]);
      NotJoined(sh, k - 1, lines[k - 1], lines[k]);
    }
    forall k | 0 <= k < |lines|
      ensures Fitting(sh, k, lines[k]) <==> |lines[k]| == 1 || Column(sh, k, lines[k]) < TWO_32
      ensures Short(sh, words) ==> Fitting(sh, k, lines[k])
    {
      WrappedAt(sh, lines, k);
      TogetherFits(sh, k, lines[k]);
      if Short(sh, words) {
        ConcatSplit(lines, k);
        ShortFits(sh, k, lines[k]);
      }
    }
  }

  lemma WrapSmall(n: Unsigned)
    ensures Wrap(n) == n
  {
  }

  lemma LongLine(sh: Shape, long: string, w: string)
    requires Joins(sh, 0, [long], w)
    ensures Greedy(sh, [[long, w]], [long, w]) && [long] + [w] == [long, w]
  {
    hide Joins, Joined;
    assert [long] + [w] == [long, w];
    assert Wrapped(sh, []) && Concat([]) == [];
    assert [] + [[long, w]] == [[long, w]] && [] + [long, w] == [long, w];
    TogetherMore(sh, 0, [long], w);
    LinesMore(sh, [], [long, w], ' ', "");
  }

  // ---- The lines in the output ----

  // The symbols before word m of line k.
  function WordStart(sh: Shape, k: nat, line: seq<string>, m: nat): nat
    requires m <= |line|
  {
    if m == 0 then if k == 0 then sh.line1indent else sh.indent
    else WordStart(sh, k, line, m - 1) + |line[m - 1]| + 1
  }

  lemma {:induction false} WordStartPrefix(sh: Shape, k: nat, line: seq<string>, w: string, m: nat)
    requires m <= |line|
    ensures WordStart(sh, k, line + [w], m) == WordStart(sh, k, line, m)
  {
    if m > 0 {
      WordStartPrefix(sh, k, line, w, m - 1);
    }
  }

  // The text of a line: its indent, and its words with one space between them.
  ghost predicate TextOf(sh: Shape, k: nat, line: seq<string>, sp: char, text: string) {
    && |text| == WordStart(sh, k, line, |line|) - 1
    && |text| >= (if k == 0 then sh.line1indent else sh.indent)
    && (forall i :: 0 <= i < (if k == 0 then sh.line1indent else sh.indent) ==> text[i] == sp)
    && (forall m :: 0 <= m < |line| ==> WordAt(sh, k, line, sp, text, m))
  }

  ghost predicate WordAt(sh: Shape, k: nat, line: seq<string>, sp: char, text: string, m: nat)
    requires m < |line|
  {
    var i := WordStart(sh, k, line, m);
    i + |line[m]| <= |text| && text[i..i + |line[m]|] == line[m] && (m > 0 ==> i > 0 && text[i - 1] == sp)
  }

  lemma {:induction false} LineText(sh: Shape, k: nat, line: seq<string>, sp: char)
    requires line != []
    ensures TextOf(sh, k, line, sp, Spaces(sh.IndentOf(k), sp) + Joined(line, sp))
    decreases |line|
  {
    var n := |line| - 1;
    var p, w := line[..n], line[n];
    assert line == p + [w];
    if n == 0 {
      OneWordText(sh, k, w, sp);
    } else {
      LineText(sh, k, p, sp);
      JoinedMore(p, w, sp);
      TextMore(sh, k, p, w, sp, Spaces(sh.IndentOf(k), sp) + Joined(p, sp));
      Appended(Spaces(sh.IndentOf(k), sp), Joined(p, sp), [sp], w);
    }
  }

  lemma Appended(a: string, b: string, c: string, d: string)
    ensures a + (b + c + d) == a + b + c + d
  {
  }

  lemma OneWordText(sh: Shape, k: nat, w: string, sp: char)
    ensures TextOf(sh, k, [w], sp, Spaces(sh.IndentOf(k), sp) + Joined([w], sp))
  {
    var text := Spaces(sh.IndentOf(k), sp) + w;
    assert WordStart(sh, k, [w], 1) == WordStart(sh, k, [w], 0) + |w| + 1;
    assert text[sh.IndentOf(k)..sh.IndentOf(k) + |w|] == w;
  }

  lemma TextMore(sh: Shape, k: nat, line: seq<string>, w: string, sp: char, text: string)
    requires line != [] && TextOf(sh, k, line, sp, text)
    ensures TextOf(sh, k, line + [w], sp, text + [sp] + w)
  {
    hide WordStart;
    var more, t := line + [w], text + [sp] + w;
    WordStartPrefix(sh, k, line, w, |line|);
    WordStartNext(sh, k, more, |line|);
    StartInside(sh, k, line);
    forall m | 0 <= m < |more|
      ensures WordAt(sh, k, more, sp, t, m)
    {
      if m < |line| {
        WordStartPrefix(sh, k, line, w, m);
        var i := WordStart(sh, k, line, m);
        assert WordAt(sh, k, line, sp, text, m);
        assert t[i..i + |line[m]|] == text[i..i + |line[m]|];
      } else {
        var i := WordStart(sh, k, more, m);
        assert t[i..i + |w|] == w;
        assert t[i - 1] == sp;
      }
    }
  }

  lemma WordStartNext(sh: Shape, k: nat, line: seq<string>, m: nat)
    requires m < |line|
    ensures WordStart(sh, k, line, m + 1) == WordStart(sh, k, line, m) + |line[m]| + 1
  {
  }

  lemma {:induction false} StartInside(sh: Shape, k: nat, line: seq<string>)
    requires line != []
    ensures WordStart(sh, k, line, |line|) > if k == 0 then sh.line1indent else sh.indent
    decreases |line|
  {
    var n := |line| - 1;
    if n > 0 {
      StartInside(sh, k, line[..n]);
      assert line == line[..n] + [line[n]];
      WordStartPrefix(sh, k, line[..n], line[n], n);
    }
  }

  // The symbols of the output before line k: the lines before it and a line break each.
  function LineStart(sh: Shape, lines: seq<seq<string>>, k: nat, nl: string): nat
    requires k <= |lines|
  {
    if k == 0 then 0 else LineStart(sh, lines, k - 1, nl) + Column(sh, k - 1, lines[k - 1]) + |nl|
  }

  lemma {:induction false} LineStartPrefix(sh: Shape, lines: seq<seq<string>>, m: nat, k: nat, nl: string)
    requires k <= m <= |lines|
    ensures LineStart(sh, lines[..m], k, nl) == LineStart(sh, lines, k, nl)
  {
    hide Column;
    if k > 0 {
      LineStartPrefix(sh, lines, m, k - 1, nl);
    }
  }

  // The output has nothing but the lines and the breaks between them.
  lemma {:induction false} OutputLength(sh: Shape, lines: seq<seq<string>>, sp: char, nl: string)
    ensures |Render(sh, lines, sp, nl)| == LineStart(sh, lines, |lines|, nl) - if lines == [] then 0 else |nl|
  {
    hide Joined;
    if lines != [] {
      var n := |lines| - 1;
      OutputLength(sh, lines[..n], sp, nl);
      LineStartPrefix(sh, lines, n, n, nl);
      JoinedLength(lines[n], sp, ' ');
    }
  }

  // Line k of the output, between its line breaks, is the text of line k; and it is as
  // long as its column says.
  lemma {:induction false} OutputLine(sh: Shape, lines: seq<seq<string>>, k: nat, sp: char, nl: string)
    returns (pre: string, text: string, post: string)
    requires k < |lines| && lines[k] != []
    ensures Render(sh, lines, sp, nl) == pre + text + post
    ensures TextOf(sh, k, lines[k], sp, text) && |text| == Column(sh, k, lines[k])
    ensures |pre| == LineStart(sh, lines, k, nl)
    ensures if k == 0 then pre == "" else |pre| >= |nl| && pre[|pre| - |nl|..] == nl
    ensures if k == |lines| - 1 then post == "" else nl <= post
  {
    var n := |lines| - 1;
    RenderLast(sh, lines, sp, nl);
    if k < n {
      hide *;
      LineStartPrefix(sh, lines, n, k, nl);
      var rest: string;
      pre, text, rest := OutputLine(sh, lines[..n], k, sp, nl);
      post := rest + (nl + Spaces(sh.IndentOf(n), sp) + Joined(lines[n], sp));
      Followed(pre, text, rest, nl, Spaces(sh.IndentOf(n), sp), Joined(lines[n], sp));
    } else {
      pre := Render(sh, lines[..n], sp, nl) + (if n == 0 then "" else nl);
      text, post := Spaces(sh.IndentOf(n), sp) + Joined(lines[n], sp), "";
      LineText(sh, n, lines[n], sp);
      JoinedLength(lines[n], sp, ' ');
      OutputLength(sh, lines[..n], sp, nl);
      LineStartPrefix(sh, lines, n, n, nl);
      hide *;
      Ended(Render(sh, lines[..n], sp, nl), if n == 0 then "" else nl, Spaces(sh.IndentOf(n), sp),
            Joined(lines[n], sp));
    }
  }

  lemma RenderLast(sh: Shape, lines: seq<seq<string>>, sp: char, nl: string)
    requires lines != []
    ensures var n := |lines| - 1;
            var before := Render(sh, lines[..n], sp, nl) + if n == 0 then "" else nl;
            Render(sh, lines, sp, nl) == before + Spaces(sh.IndentOf(n), sp) + Joined(lines[n], sp)
  {
  }

  lemma Followed(pre: string, text: string, rest: string, nl: string, a: string, b: string)
    ensures pre + text + rest + nl + a + b == pre + text + (rest + (nl + a + b))
    ensures rest == "" || nl <= rest ==> nl <= rest + (nl + a + b)
  {
    assert rest + (nl + a + b) == rest + nl + a + b;
  }

  lemma Ended(pre: string, nl: string, a: string, b: string)
    ensures pre + nl + a + b == pre + nl + (a + b) + ""
    ensures (pre + nl)[|pre + nl| - |nl|..] == nl
  {
  }

  // What fits, by the length of the line in the output.
  lemma FittingInPlain(sh: Shape, k: nat, line: seq<string>, next: seq<string>, sp: char, text: string)
    requires TextOf(sh, k, line, sp, text) && line != []
    ensures Fitting(sh, k, line) <==> |line| == 1 || |text| < if k == 0 then sh.line1maxWidth else sh.maxWidth
    ensures NoRoom(sh, k, line, next) <==>
              next != [] && |text| + 1 + |next[0]| >= if k == 0 then sh.line1maxWidth else sh.maxWidth
  {
    LineText(sh, k, line, ' ');
  }

  // ---- Greedy lines are determined by the words ----

  lemma {:induction false} WrappedAt(sh: Shape, lines: seq<seq<string>>, k: nat)
    requires Wrapped(sh, lines) && k < |lines|
    ensures Together(sh, k, lines[k])
    ensures k + 1 < |lines| ==> lines[k + 1] != [] && !Joins(sh, k, lines[k], lines[k + 1][0])
  {
    var n := |lines| - 1;
    if k < n {
      WrappedAt(sh, lines[..n], k);
    }
  }

  lemma {:induction false} ConcatSplit(lines: seq<seq<string>>, k: nat)
    requires k < |lines|
    ensures Concat(lines) == Concat(lines[..k]) + (lines[k] + Concat(lines[k + 1..]))
  {
    var n := |lines| - 1;
    if k == n {
      assert lines[k + 1..] == [];
      assert lines[n] + [] == lines[n];
    } else {
      ConcatSplit(lines[..n], k);
      assert lines[..n][..k] == lines[..k];
      assert lines[k + 1..][..n - k - 1] == lines[..n][k + 1..];
      ConcatAssoc(Concat(lines[..k]), lines[k], Concat(lines[..n][k + 1..]), lines[n]);
    }
  }

  lemma ConcatAssoc<T>(a: seq<T>, b: seq<T>, c: seq<T>, d: seq<T>)
    ensures a + (b + c) + d == a + (b + (c + d))
  {
  }

  lemma CommonPrefix<T>(a: seq<T>, b: seq<T>, x: seq<T>, y: seq<T>)
    requires a + x == b + y && |a| <= |b|
    ensures b[..|a|] == a
    ensures |a| < |b| ==> x != [] && x[0] == b[|a|]
    ensures |a| == |b| ==> a == b
  {
    assert forall j :: 0 <= j < |a| ==> a[j] == (a + x)[j] && b[j] == (b + y)[j];
    if |a| < |b| {
      assert |a + x| == |b + y|;
      assert (a + x)[|a|] == (b + y)[|a|];
    }
  }

  lemma FirstWord(sh: Shape, lines: seq<seq<string>>, k: nat)
    requires Wrapped(sh, lines) && k < |lines| && Concat(lines[k + 1..]) != []
    ensures k + 1 < |lines| && lines[k + 1] != [] && Concat(lines[k + 1..])[0] == lines[k + 1][0]
  {
    var rest := lines[k + 1..];
    WrappedAt(sh, lines, k + 1);
    ConcatSplit(rest, 0);
    assert rest[..0] == [];
  }

  // The first word of the next line would have joined if another line k went further.
  lemma LineNotShorter(sh: Shape, k: nat, l1: seq<seq<string>>, l2: seq<seq<string>>)
    requires Wrapped(sh, l1) && Wrapped(sh, l2) && k < |l1| && k < |l2|
    requires l1[k] + Concat(l1[k + 1..]) == l2[k] + Concat(l2[k + 1..])
    ensures |l1[k]| >= |l2[k]|
  {
    WrappedAt(sh, l1, k);
    WrappedAt(sh, l2, k);
    hide Wrapped, Joins, Concat;
    if |l1[k]| < |l2[k]| {
      assert Joins(sh, k, l2[k][..|l1[k]|], l2[k][|l1[k]|]);
      CommonPrefix(l1[k], l2[k], Concat(l1[k + 1..]), Concat(l2[k + 1..]));
      FirstWord(sh, l1, k);
    }
  }

  lemma {:induction false} GreedyPrefix(sh: Shape, l1: seq<seq<string>>, l2: seq<seq<string>>,
                                        words: seq<string>, k: nat)
    requires Greedy(sh, l1, words) && Greedy(sh, l2, words)
    requires k <= |l1| && k <= |l2|
    ensures l1[..k] == l2[..k]
  {
    hide Wrapped, Concat;
    if k > 0 {
      var j := k - 1;
      GreedyPrefix(sh, l1, l2, words, j);
      ConcatSplit(l1, j);
      ConcatSplit(l2, j);
      SameTail(Concat(l1[..j]), l1[j] + Concat(l1[k..]), l2[j] + Concat(l2[k..]));
      LineNotShorter(sh, j, l1, l2);
      LineNotShorter(sh, j, l2, l1);
      CommonPrefix(l1[j], l2[j], Concat(l1[k..]), Concat(l2[k..]));
      assert l1[..k] == l1[..j] + [l1[j]];
      assert l2[..k] == l2[..j] + [l2[j]];
    }
  }

  lemma SameTail<T>(a: seq<T>, b: seq<T>, c: seq<T>)
    requires a + b == a + c
    ensures b == c
  {
    assert b == (a + b)[|a|..];
    assert c == (a + c)[|a|..];
  }

  // There is only one way to wrap the words greedily, so the contract of the
  // wrapper determines its output.
  lemma GreedyUnique(sh: Shape, l1: seq<seq<string>>, l2: seq<seq<string>>, words: seq<string>)
    requires Greedy(sh, l1, words) && Greedy(sh, l2, words)
    ensures l1 == l2
  {
    if |l1| <= |l2| {
      NoMoreLines(sh, l1, l2, words);
    } else {
      NoMoreLines(sh, l2, l1, words);
    }
  }

  lemma NoMoreLines(sh: Shape, l1: seq<seq<string>>, l2: seq<seq<string>>, words: seq<string>)
    requires Greedy(sh, l1, words) && Greedy(sh, l2, words) && |l1| <= |l2|
    ensures l1 == l2
  {
    var k := |l1|;
    GreedyPrefix(sh, l1, l2, words, k);
    assert l1[..k] == l1;
    if k < |l2| {
      ConcatLonger(sh, l2, k);
    } else {
      assert l2[..k] == l2;
    }
  }

  lemma ConcatLonger(sh: Shape, lines: seq<seq<string>>, k: nat)
    requires Wrapped(sh, lines) && k < |lines|
    ensures |Concat(lines)| > |Concat(lines[..k])|
  {
    ConcatSplit(lines, k);
    WrappedAt(sh, lines, k);
  }

  // ---- Exactly when the lines fit ----

  // The lines with a word put behind the last one, if it fits there.
  function Grown(sh: Shape, lines: seq<seq<string>>, w: string): seq<seq<string>> {
    var m := |lines| - 1;
    if lines != [] && Column(sh, m, lines[m]) + 1 + |w| < sh.LimitOf(m) then lines[..m] + [lines[m] + [w]]
    else lines + [[w]]
  }

  // The lines that the words make with unbounded columns.
  function Layout(sh: Shape, words: seq<string>): seq<seq<string>> {
    if words == [] then [] else Grown(sh, Layout(sh, words[..|words| - 1]), words[|words| - 1])
  }

  ghost predicate AllFitting(sh: Shape, lines: seq<seq<string>>) {
    forall k :: 0 <= k < |lines| ==> Fitting(sh, k, lines[k])
  }

  ghost predicate NoneHasRoom(sh: Shape, lines: seq<seq<string>>) {
    forall k :: 0 < k < |lines| ==> NoRoom(sh, k - 1, lines[k - 1], lines[k])
  }

  // The test of the wrapper, in 32-bit arithmetic, breaks wherever the lines do.
  ghost predicate BreaksSeen(sh: Shape, lines: seq<seq<string>>) {
    forall k :: 0 < k < |lines| ==> lines[k] != [] && !Joins(sh, k - 1, lines[k - 1], lines[k][0])
  }

  lemma FittingMore(sh: Shape, k: nat, line: seq<string>, w: string)
    requires line != []
    ensures Fitting(sh, k, line + [w]) <==> Column(sh, k, line) + 1 + |w| < sh.LimitOf(k)
    ensures Fitting(sh, k, line + [w]) ==> Fitting(sh, k, line)
  {
    hide Column;
    ColumnMore(sh, k, line, w);
  }

  // Lines that fit, and are broken only where the next word would not fit.
  ghost predicate Good(sh: Shape, lines: seq<seq<string>>) {
    AllFitting(sh, lines) && NoneHasRoom(sh, lines)
  }

  lemma GoodMore(sh: Shape, lines: seq<seq<string>>, line: seq<string>)
    ensures Good(sh, lines + [line]) <==>
              && Good(sh, lines) && Fitting(sh, |lines|, line)
              && (lines != [] ==> NoRoom(sh, |lines| - 1, lines[|lines| - 1], line))
  {
    hide *;
    AllFittingMore(sh, lines, line);
    NoneHasRoomMore(sh, lines, line);
    GoodIs(sh, lines);
    GoodIs(sh, lines + [line]);
  }

  lemma GoodIs(sh: Shape, lines: seq<seq<string>>)
    ensures Good(sh, lines) <==> AllFitting(sh, lines) && NoneHasRoom(sh, lines)
  {
  }

  lemma AllFittingMore(sh: Shape, lines: seq<seq<string>>, line: seq<string>)
    ensures AllFitting(sh, lines + [line]) <==> AllFitting(sh, lines) && Fitting(sh, |lines|, line)
  {
    hide Fitting;
    var more := lines + [line];
    assert forall k :: 0 <= k < |lines| ==> more[k] == lines[k];
    assert more[|lines|] == line;
  }

  lemma NoneHasRoomMore(sh: Shape, lines: seq<seq<string>>, line: seq<string>)
    ensures NoneHasRoom(sh, lines + [line]) <==>
              NoneHasRoom(sh, lines) && (lines != [] ==> NoRoom(sh, |lines| - 1, lines[|lines| - 1], line))
  {
    hide NoRoom;
    var more := lines + [line];
    assert forall k :: 0 <= k < |lines| ==> more[k] == lines[k];
    assert more[|lines|] == line;
  }

  lemma ConcatLast(lines: seq<seq<string>>, line: seq<string>)
    ensures Concat(lines + [line]) == Concat(lines) + line
  {
    assert (lines + [line])[..|lines|] == lines;
  }

  lemma NoRoomMore(sh: Shape, k: nat, line: seq<string>, next: seq<string>, w: string)
    requires next != []
    ensures NoRoom(sh, k, line, next + [w]) <==> NoRoom(sh, k, line, next)
  {
  }

  // The lines with a word behind the last one.
  lemma JoinedGood(sh: Shape, pre: seq<seq<string>>, last: seq<string>, w: string)
    requires last != []
    ensures Good(sh, pre + [last + [w]]) <==> Good(sh, pre + [last]) && Fitting(sh, |pre|, last + [w])
  {
    hide *;
    GoodMore(sh, pre, last);
    GoodMore(sh, pre, last + [w]);
    FittingMore(sh, |pre|, last, w);
    if pre != [] {
      NoRoomMore(sh, |pre| - 1, pre[|pre| - 1], last, w);
    }
  }

  lemma JoinedConcat(pre: seq<seq<string>>, last: seq<string>, w: string)
    ensures Concat(pre + [last + [w]]) == Concat(pre + [last]) + [w]
  {
    hide *;
    ConcatLast(pre, last);
    ConcatLast(pre, last + [w]);
    Regrouped(Concat(pre), last, w);
  }

  lemma Regrouped(a: seq<string>, b: seq<string>, w: string)
    ensures a + (b + [w]) == a + b + [w]
  {
  }

  // A word joins the last line if it fits there, and starts one if not.
  lemma GrownIs(sh: Shape, pre: seq<seq<string>>, last: seq<string>, w: string)
    requires last != []
    ensures Grown(sh, pre + [last], w)
         == if Fitting(sh, |pre|, last + [w]) then pre + [last + [w]] else pre + [last] + [[w]]
  {
    hide Column, Fitting;
    var lines := pre + [last];
    assert lines[..|pre|] == pre && lines[|pre|] == last;
    FittingMore(sh, |pre|, last, w);
  }

  lemma RoomIsFit(sh: Shape, k: nat, line: seq<string>, w: string)
    requires line != []
    ensures NoRoom(sh, k, line, [w]) <==> !Fitting(sh, k, line + [w])
    ensures Fitting(sh, k + 1, [w])
  {
    hide Column;
    FittingMore(sh, k, line, w);
  }

  lemma GoodSplit(sh: Shape, lines: seq<seq<string>>)
    requires lines != [] && Good(sh, lines)
    ensures var m := |lines| - 1;
            lines == lines[..m] + [lines[m]] && Fitting(sh, m, lines[m]) && lines[m] != []
  {
    hide Column;
    assert Fitting(sh, |lines| - 1, lines[|lines| - 1]);
  }

  lemma GrownGood(sh: Shape, p: seq<seq<string>>, w: string)
    requires Good(sh, p)
    ensures Good(sh, Grown(sh, p, w)) && Concat(Grown(sh, p, w)) == Concat(p) + [w]
  {
    GoodMore(sh, p, [w]);
    ConcatLast(p, [w]);
    if p == [] {
      assert Fitting(sh, 0, [w]);
    } else {
      hide *;
      var m := |p| - 1;
      GoodSplit(sh, p);
      GrownIs(sh, p[..m], p[m], w);
      JoinedGood(sh, p[..m], p[m], w);
      JoinedConcat(p[..m], p[m], w);
      RoomIsFit(sh, m, p[m], w);
    }
  }

  lemma {:induction false} LayoutGood(sh: Shape, words: seq<string>)
    ensures Concat(Layout(sh, words)) == words && Good(sh, Layout(sh, words))
  {
    hide Grown;
    if words != [] {
      var n := |words| - 1;
      LayoutGood(sh, words[..n]);
      GrownGood(sh, Layout(sh, words[..n]), words[n]);
      assert words == words[..n] + [words[n]];
    }
  }

  // There is one layout with unbounded columns.
  lemma {:induction false} GoodIsLayout(sh: Shape, lines: seq<seq<string>>, words: seq<string>)
    requires Concat(lines) == words && Good(sh, lines)
    ensures lines == Layout(sh, words)
    decreases |words|
  {
    if lines != [] {
      hide *;
      var before, w := GoodGrown(sh, lines);
      GoodIsLayout(sh, before, Concat(before));
      LayoutMore(sh, Concat(before), w);
    }
  }

  lemma LayoutMore(sh: Shape, words: seq<string>, w: string)
    ensures Layout(sh, words + [w]) == Grown(sh, Layout(sh, words), w)
  {
    assert (words + [w])[..|words|] == words;
  }

  // Good lines are good lines that have grown by their last word.
  lemma GoodGrown(sh: Shape, lines: seq<seq<string>>) returns (before: seq<seq<string>>, w: string)
    requires lines != [] && Good(sh, lines)
    ensures Good(sh, before) && Concat(lines) == Concat(before) + [w] && Grown(sh, before, w) == lines
  {
    hide *;
    var m := |lines| - 1;
    var pre, last := lines[..m], lines[m];
    GoodSplit(sh, lines);
    var k := |last| - 1;
    w := last[k];
    if k == 0 {
      before := pre;
      assert last == [w];
      GoodMore(sh, pre, [w]);
      ConcatLast(pre, [w]);
      NewLine(sh, pre, w);
    } else {
      before := pre + [last[..k]];
      assert last == last[..k] + [w];
      JoinedGood(sh, pre, last[..k], w);
      JoinedConcat(pre, last[..k], w);
      GrownIs(sh, pre, last[..k], w);
    }
  }

  lemma NewLine(sh: Shape, pre: seq<seq<string>>, w: string)
    requires Good(sh, pre + [[w]])
    ensures Grown(sh, pre, w) == pre + [[w]]
  {
    GoodMore(sh, pre, [w]);
    if pre != [] {
      var m := |pre| - 1;
      hide *;
      GoodSplit(sh, pre);
      RoomIsFit(sh, m, pre[m], w);
      GrownIs(sh, pre[..m], pre[m], w);
    }
  }

  lemma {:induction false} FittingTogether(sh: Shape, k: nat, line: seq<string>)
    requires Proper(sh) && Fitting(sh, k, line)
    ensures Together(sh, k, line)
  {
    hide Column, Tracked;
    var n := |line| - 1;
    if n > 0 {
      var p, w := line[..n], line[n];
      assert line == p + [w];
      FittingMore(sh, k, p, w);
      FittingTogether(sh, k, p);
      TrackedBelow(sh, k, line);
      TogetherMore(sh, k, p, w);
    }
  }

  lemma {:induction false} WrappedFrom(sh: Shape, lines: seq<seq<string>>)
    requires (forall k :: 0 <= k < |lines| ==> Together(sh, k, lines[k])) && BreaksSeen(sh, lines)
    ensures Wrapped(sh, lines)
  {
    hide Together, Joins;
    if lines != [] {
      var n := |lines| - 1;
      assert forall k :: 0 <= k < n ==> lines[..n][k] == lines[k];
      WrappedFrom(sh, lines[..n]);
    }
  }

  // The lines of the wrapper all fit, each below its limit or a single word, if and
  // only if at the breaks of the unbounded layout of the words its test does not wrap
  // around to below the limit.
  lemma GreedyExactly(sh: Shape, lines: seq<seq<string>>, words: seq<string>)
    requires Proper(sh) && Greedy(sh, lines, words)
    ensures AllFitting(sh, lines) <==> BreaksSeen(sh, Layout(sh, words))
  {
    hide Wrapped, Together, Joins, Fitting, NoRoom, Column, Concat, Layout;
    var layout := Layout(sh, words);
    LayoutGood(sh, words);
    GreedyFits(sh, lines, words);
    if AllFitting(sh, lines) {
      GoodIsLayout(sh, lines, words);
      forall k | 0 < k < |lines|
        ensures lines[k] != [] && !Joins(sh, k - 1, lines[k - 1], lines[k][0])
      {
        WrappedAt(sh, lines, k - 1);
      }
    }
    if BreaksSeen(sh, layout) {
      forall k | 0 <= k < |layout|
        ensures Together(sh, k, layout[k])
      {
        FittingTogether(sh, k, layout[k]);
      }
      WrappedFrom(sh, layout);
      GreedyUnique(sh, lines, layout, words);
    }
  }

  // The text of a word of 2^32 symbols and another one.  The column behind the first
  // wraps, and the second joins it in a line that is over its limit.
  lemma LongWordWraps(sh: Shape, long: string, w: string, sp: char, e: char, ws: Test, esc: Test)
    requires |long| == 0x1_0000_0000 && w != "" && sh.line1indent + 1 + |w| < sh.line1maxWidth
    requires esc(e) && !ws(e) && ws(sp) && !esc(sp)
    ensures var words := Words(EscapedTexts([long, w], sp, e, ws, esc), 0, ws, esc);
            && words == [long, w]
            && forall lines :: Greedy(sh, lines, words) ==> lines == [[long, w]] && !Fitting(sh, 0, lines[0])
  {
    var s := EscapedTexts([long, w], sp, e, ws, esc);
    hide EscapedTexts, Words, Tracked, Joined, Wrap, Greedy;
    assert s[0..] == s;
    EscapedWords(s, 0, [long, w], sp, e, ws, esc);
    LongWord(sh, long, w);
    forall lines | Greedy(sh, lines, [long, w])
      ensures lines == [[long, w]]
    {
      GreedyUnique(sh, lines, [[long, w]], [long, w]);
    }
  }

  lemma LongWord(sh: Shape, long: string, w: string)
    requires |long| == TWO_32 && sh.line1indent + 1 + |w| < sh.line1maxWidth
    ensures Greedy(sh, [[long, w]], [long, w])
    ensures !Fitting(sh, 0, [long, w])
  {
    assert Joined([long], ' ') == long;
    hide Tracked, Joined, Wrap;
    StartTracked(sh, 0, long);
    WrapOff(sh.line1indent, 1);
    WrapSmall(sh.line1indent);
    WrapSmall(sh.line1indent + 1 + |w|);
    TrackedMore(sh, 0, [long], w);
    LongLine(sh, long, w);
    JoinedMore([long], w, ' ');
  }

  // The state of the wrapper: what was written is the rendering of lines that
  // are greedy so far.
  ghost predicate Wrapping(sh: Shape, lines: seq<seq<string>>, words: seq<string>, sp: char, nl: string, out: string,
                           empty: bool, curPos: nat, firstLine: bool, indsz: nat, width: nat)
  {
    && Greedy(sh, lines, words)
    && out == Render(sh, lines, sp, nl)
    && (firstLine <==> lines == [])
    && indsz == sh.IndentOf(|lines|)
    && width == (if lines == [] then sh.LimitOf(0) else sh.LimitOf(|lines| - 1))
    && (empty ==> lines == [] || Tracked(sh, |lines| - 1, lines[|lines| - 1]) == None)
    && (!empty ==> lines != [] && Tracked(sh, |lines| - 1, lines[|lines| - 1]) == Some(curPos))
  }

  lemma WrappingFields(sh: Shape, lines: seq<seq<string>>, words: seq<string>, sp: char, nl: string, out: string,
                       empty: bool, curPos: nat, firstLine: bool, indsz: nat, width: nat)
    requires Wrapping(sh, lines, words, sp, nl, out, empty, curPos, firstLine, indsz, width)
    ensures firstLine <==> lines == []
    ensures !empty ==> !firstLine
    ensures indsz == sh.IndentOf(|lines|) && width == sh.LimitOf(if firstLine then 0 else |lines| - 1)
  {
  }

  // The lines with a word joined to the last one.
  lemma LinesJoined(sh: Shape, pre: seq<seq<string>>, last: seq<string>, words: seq<string>, w: string, sp: char,
                    nl: string)
    requires Greedy(sh, pre + [last], words) && Joins(sh, |pre|, last, w)
    ensures Greedy(sh, pre + [last + [w]], words + [w])
    ensures Render(sh, pre + [last + [w]], sp, nl) == Render(sh, pre + [last], sp, nl) + [sp] + w
  {
    hide Joined, Render, Concat, Wrapped, Together, Joins, Spaces;
    LinesMore(sh, pre, last, sp, nl);
    LinesMore(sh, pre, last + [w], sp, nl);
    TogetherSome(sh, |pre|, last);
    TogetherMore(sh, |pre|, last, w);
    JoinedMore(last, w, sp);
    assert (last + [w])[0] == last[0];
    ConcatAssoc(Concat(pre), last, [w], []);
    assert words + [w] == Concat(pre) + (last + [w]);
  }

  // The word joins the last line.
  lemma WordJoins(sh: Shape, lines: seq<seq<string>>, words: seq<string>, w: string, sp: char, nl: string, out: string,
                  curPos: nat, indsz: nat, width: nat) returns (lines': seq<seq<string>>)
    requires Wrapping(sh, lines, words, sp, nl, out, false, curPos, false, indsz, width)
    requires Wrap(curPos + 1 + |w|) < width
    ensures Wrapping(sh, lines', words + [w], sp, nl,
                     out + [sp] + w, false, Wrap(curPos + 1 + |w|), false, indsz, width)
  {
    hide Render, Greedy, Tracked;
    var n := |lines| - 1;
    var pre, last := lines[..n], lines[n];
    assert lines == pre + [last];
    assert last != [] by {
      LastTogether(sh, lines, words);
    }
    lines' := pre + [last + [w]];
    TrackedMore(sh, n, last, w);
    LinesJoined(sh, pre, last, words, w, sp, nl);
    assert lines'[n] == last + [w];
  }

  lemma LastTogether(sh: Shape, lines: seq<seq<string>>, words: seq<string>)
    requires Greedy(sh, lines, words) && lines != []
    ensures lines[|lines| - 1] != []
  {
  }

  // The word starts a line.
  lemma WordStarts(sh: Shape, lines: seq<seq<string>>, words: seq<string>, w: string, sp: char, nl: string, out: string,
                   empty: bool, curPos: nat, firstLine: bool, indsz: nat, width: nat, empty': bool, curPos': nat)
    returns (lines': seq<seq<string>>)
    requires Wrapping(sh, lines, words, sp, nl, out, empty, curPos, firstLine, indsz, width)
    requires !empty ==> Wrap(curPos + 1 + |w|) >= width
    requires empty' <==> Wrap(indsz + |w|) >= sh.LimitOf(|lines|)
    requires !empty' ==> curPos' == Wrap(indsz + |w|)
    ensures Wrapping(sh, lines', words + [w], sp, nl,
                     out + (if firstLine then "" else nl) + Spaces(indsz, sp) + w,
                     empty', curPos', false, sh.indent, sh.LimitOf(|lines|))
  {
    hide Render, Greedy, Tracked;
    lines' := lines + [[w]];
    StartTracked(sh, |lines|, w);
    if lines != [] {
      TrackedMore(sh, |lines| - 1, lines[|lines| - 1], w);
    }
    LinesStarted(sh, lines, words, w, sp, nl);
  }

  lemma StartTracked(sh: Shape, k: nat, w: string)
    ensures Tracked(sh, k, [w]) == var c := Wrap(sh.IndentOf(k) + |w|); if c < sh.LimitOf(k) then Some(c) else None
  {
    assert [] + [w] == [w];
    TrackedMore(sh, k, [], w);
    assert Tracked(sh, k, []) == Some(sh.IndentOf(k));
    hide Tracked;
  }

  // The lines with a word on a line of its own behind them.
  lemma LinesStarted(sh: Shape, lines: seq<seq<string>>, words: seq<string>, w: string, sp: char, nl: string)
    requires Greedy(sh, lines, words)
    requires lines != [] ==> !Joins(sh, |lines| - 1, lines[|lines| - 1], w)
    ensures Greedy(sh, lines + [[w]], words + [w])
    ensures Render(sh, lines + [[w]], sp, nl)
         == Render(sh, lines, sp, nl) + (if lines == [] then "" else nl) + Spaces(sh.IndentOf(|lines|), sp) + w
  {
    assert Joined([w], sp) == w;
    hide Joined, Render, Concat, Wrapped, Joins, Spaces;
    LinesMore(sh, lines, [w], sp, nl);
  }

  // ---- The wrapper ----

  method FindNonWs(s: string, i: nat, ws: Test) returns (r: nat)
    requires i <= |s|
    ensures r == Skip(s, i, ws)
  {
    r := i;
    while r < |s| && ws(s[r])
      invariant i <= r <= |s| && Skip(s, r, ws) == Skip(s, i, ws)
    {
      r := r + 1;
    }
  }

  lemma WordsSkip(s: string, i: nat, ws: Test, esc: Test)
    requires i <= |s|
    ensures Words(s, Skip(s, i, ws), ws, esc) == Words(s, i, ws, esc)
  {
    assert Skip(s, Skip(s, i, ws), ws) == Skip(s, i, ws);
  }

  lemma WordsStep(s: string, i: nat, ws: Test, esc: Test, words: seq<string>)
    requires i < |s| && !ws(s[i])
    ensures var next := Skip(s, WordEnd(s, i, ws, esc), ws);
            && i < next
            && words + Words(s, i, ws, esc) == words + [Word(s, i, ws, esc)] + Words(s, next, ws, esc)
  {
    hide Word;
    assert Skip(s, i, ws) == i;
    WordsSkip(s, WordEnd(s, i, ws, esc), ws, esc);
  }

  // One round of the loop: places the word that starts at pchr.
  method PutWord(sh: Shape, s: string, pchr: nat, ws: Test, esc: Test, wordLen: Unsigned, sp: char, nl: string,
                 out: string, empty: bool, curPos: Unsigned, firstLine: bool, indsz: Unsigned, width: Unsigned,
                 ghost lines: seq<seq<string>>, ghost words: seq<string>)
    returns (out': string, empty': bool, curPos': Unsigned, firstLine': bool, indsz': Unsigned, width': Unsigned,
             ghost lines': seq<seq<string>>)
    requires pchr <= |s| && wordLen == Wrap(|Word(s, pchr, ws, esc)|)
    requires Wrapping(sh, lines, words, sp, nl, out, empty, curPos, firstLine, indsz, width)
    ensures Wrapping(sh, lines', words + [Word(s, pchr, ws, esc)], sp, nl,
                     out', empty', curPos', firstLine', indsz', width')
  {
    hide Word, WordEnd, Wrapping, Spaces, Wrap;
    WrappingFields(sh, lines, words, sp, nl, out, empty, curPos, firstLine, indsz, width);
    WrapSum(curPos + 1, |Word(s, pchr, ws, esc)|);
    WrapSum(indsz, |Word(s, pchr, ws, esc)|);
    ghost var joins := !empty && Wrap(curPos + wordLen + 1) < width;
    out', empty', curPos', firstLine', indsz', width' := out, empty, curPos, firstLine, indsz, width;
    if !empty {
      if Wrap(curPos + wordLen + 1) < width {
        out' := out' + [sp];
        curPos' := Wrap(curPos' + 1);
      } else {
        out', curPos', firstLine', indsz', width' := OpenLine(sh, sp, nl, out, firstLine, indsz, width);
      }
      var _, _, w := Consume(s, pchr, ws, esc);
      out' := out' + w;
      if Wrap(curPos' + wordLen) < width' {
        curPos' := Wrap(curPos' + wordLen);
      } else {
        empty' := true;
        curPos' := 0;
      }
    } else {
      out', curPos', firstLine', indsz', width' := OpenLine(sh, sp, nl, out, firstLine, indsz, width);
      var _, _, w := Consume(s, pchr, ws, esc);
      out' := out' + w;
      if Wrap(curPos' + wordLen) < width' {
        curPos' := Wrap(curPos' + wordLen);
        empty' := false;
      }
    }
    ghost var w := Word(s, pchr, ws, esc);
    if joins {
      lines' := WordJoins(sh, lines, words, w, sp, nl, out, curPos, indsz, width);
    } else {
      lines' := WordStarts(sh, lines, words, w, sp, nl, out, empty, curPos, firstLine, indsz, width, empty', curPos');
    }
  }

  // Starts a line with its indent, after a new line unless it is the first.
  method OpenLine(sh: Shape, sp: char, nl: string, out: string, firstLine: bool, indsz: Unsigned, width: Unsigned)
    returns (out': string, curPos': Unsigned, firstLine': bool, indsz': Unsigned, width': Unsigned)
    ensures out' == out + (if firstLine then "" else nl) + Spaces(indsz, sp)
    ensures curPos' == indsz && !firstLine' && indsz' == sh.indent
    ensures width' == if firstLine then width else sh.maxWidth
  {
    out', width' := out, width;
    assert out + "" == out;
    if !firstLine {
      out' := out + nl;
      width' := sh.maxWidth;
    }
    firstLine' := false;
    out' := out' + Spaces(indsz, sp);
    curPos', indsz' := indsz, sh.indent;
  }

  // None where the source raises an exception.
  method IndentBlock(s: string, ws: Test, esc: Test, line1indent: Unsigned, line1maxWidth: Unsigned,
                     indent: Unsigned, maxWidth: Unsigned,
                     sp: char, nl: string) returns (r: Option<string>, ghost lines: seq<seq<string>>)
    ensures r.None? <==> line1indent >= line1maxWidth || indent >= maxWidth
    ensures r.Some? ==>
              var sh := Shape(line1indent, line1maxWidth, indent, maxWidth);
              && Greedy(sh, lines, Words(s, 0, ws, esc)) && r.value == Render(sh, lines, sp, nl)
              && (forall k :: 0 < k < |lines| ==> NoRoom(sh, k - 1, lines[k - 1], lines[k]))
              && (forall k :: 0 <= k < |lines| ==>
                    (Fitting(sh, k, lines[k]) <==> |lines[k]| == 1 || Column(sh, k, lines[k]) < 0x1_0000_0000))
              && (AllFitting(sh, lines) <==> BreaksSeen(sh, Layout(sh, Words(s, 0, ws, esc))))
              && (Short(sh, Words(s, 0, ws, esc)) ==> AllFitting(sh, lines))
  {
    lines := [];
    if line1indent >= line1maxWidth {
      return None, lines;
    }
    if indent >= maxWidth {
      return None, lines;
    }
    var sh := Shape(line1indent, line1maxWidth, indent, maxWidth);
    ghost var words: seq<string> := [];
    var out := "";
    var pchr := FindNonWs(s, 0, ws);
    WordsSkip(s, 0, ws, esc);
    if pchr == |s| {
      return Some(out), lines;
    }
    var empty, curPos: Unsigned, firstLine, indsz: Unsigned, width: Unsigned :=
      true, 0, true, line1indent, line1maxWidth;
    hide Word, WordEnd;

    while pchr != |s|
      invariant pchr <= |s| && (pchr < |s| ==> !ws(s[pchr]))
      invariant words + Words(s, pchr, ws, esc) == Words(s, 0, ws, esc)
      invariant Wrapping(sh, lines, words, sp, nl, out, empty, curPos, firstLine, indsz, width)
      decreases |s| - pchr
    {
      hide Wrapping, Words;
      var wordLen, wschr, _ := Consume(s, pchr, ws, esc);
      WordsStep(s, pchr, ws, esc, words);
      out, empty, curPos, firstLine, indsz, width, lines :=
        PutWord(sh, s, pchr, ws, esc, wordLen, sp, nl, out, empty, curPos, firstLine, indsz, width, lines, words);
      words := words + [Word(s, pchr, ws, esc)];
      pchr := FindNonWs(s, wschr, ws);
    }
    assert words == words + Words(s, |s|, ws, esc);
    GreedyFits(sh, lines, words);
    GreedyExactly(sh, lines, words);
    return Some(out), lines;
  }
}
