/** The parts of Python's `str` that the display-name module relies on, over
    ASCII: `isspace`, the case mappings behind `capitalize`, `split(sep)`,
    `split()` with no argument, `sep.join(...)` and `replace` of one character.
    Characters outside ASCII are treated as letters without case and are never
    whitespace. */
module PyStr {

  /** `c.isspace()` for ASCII: space, tab, line feed, vertical tab, form feed,
      carriage return and the four separators 0x1c-0x1f. */
  predicate IsSpace(c: char) {
    var n := c as int;
    n == 32 || 9 <= n <= 13 || 28 <= n <= 31
  }

  predicate NoSpace(s: string) {
    forall i :: 0 <= i < |s| ==> !IsSpace(s[i])
  }

  /** Every element is a word as `split()` produces it: non-empty, no whitespace. */
  predicate AreWords(ws: seq<string>) {
    forall i :: 0 <= i < |ws| ==> ws[i] != [] && NoSpace(ws[i])
  }

  /** No element contains the separator `sep`. */
  predicate NoneContain(ps: seq<string>, sep: char) {
    forall i :: 0 <= i < |ps| ==> sep !in ps[i]
  }

  function Upper(c: char): char {
    if 'a' <= c <= 'z' then (c as int - 32) as char else c
  }

  function Lower(c: char): char {
    if 'A' <= c <= 'Z' then (c as int + 32) as char else c
  }

  /** Both case mappings are idempotent, absorb each other, and never turn a
      non-letter (whitespace, '-', '.', '@') into something else. */
  lemma CaseLaws(c: char)
    ensures Upper(Upper(c)) == Upper(c) && Upper(Lower(c)) == Upper(c)
    ensures Lower(Lower(c)) == Lower(c) && Lower(Upper(c)) == Lower(c)
    ensures IsSpace(Upper(c)) == IsSpace(c) && IsSpace(Lower(c)) == IsSpace(c)
    ensures (Upper(c) == '-') == (c == '-') && (Lower(c) == '-') == (c == '-')
  {
  }

  /** `s.capitalize()`: the first character upper-case, all others lower-case. */
  function Capitalize(s: string): string {
    seq(|s|, i requires 0 <= i < |s| => if i == 0 then Upper(s[i]) else Lower(s[i]))
  }

  /** A string that `capitalize` leaves as it is. */
  predicate IsCapitalized(p: string) {
    p == [] || (p[0] == Upper(p[0]) && forall i :: 1 <= i < |p| ==> p[i] == Lower(p[i]))
  }

  lemma CapitalizeIsCapitalized(s: string)
    ensures IsCapitalized(Capitalize(s))
    ensures Capitalize(s) == s <==> IsCapitalized(s)
  {
    var r := Capitalize(s);
    forall i | 0 <= i < |s| ensures r[i] == (if i == 0 then Upper(r[i]) else Lower(r[i])) {
      CaseLaws(s[i]);
    }
  }

  /** The longest prefix of `s` that does not contain `sep`. */
  function TakeUntil(s: string, sep: char): (r: string)
    ensures r <= s && sep !in r
    ensures |r| < |s| ==> s[|r|] == sep
  {
    if s == [] || s[0] == sep then [] else [s[0]] + TakeUntil(s[1..], sep)
  }

  /** `s.split(sep)`: cut at every occurrence of `sep`, keeping empty pieces. */
  function SplitOn(s: string, sep: char): (r: seq<string>)
    ensures |r| >= 1 && NoneContain(r, sep)
    ensures Join(r, sep) == s
    decreases |s|
  {
    var head := TakeUntil(s, sep);
    if |head| == |s| then
      assert head == s;
      [s]
    else
      var rest := SplitOn(s[|head| + 1..], sep);
      assert s == head + [sep] + s[|head| + 1..];
      assert ([head] + rest)[1..] == rest;
      [head] + rest
  }

  /** `sep.join(ps)`. */
  function Join(ps: seq<string>, sep: char): string {
    if |ps| == 0 then ""
    else if |ps| == 1 then ps[0]
    else ps[0] + [sep] + Join(ps[1..], sep)
  }

  /** The longest prefix of `s` without whitespace. */
  function TakeWord(s: string): (r: string)
    ensures r <= s && NoSpace(r)
    ensures |r| < |s| ==> IsSpace(s[|r|])
  {
    if s == [] || IsSpace(s[0]) then [] else [s[0]] + TakeWord(s[1..])
  }

  /** `s.split()` with no argument: skip whitespace, take a word, repeat. */
  function SplitWs(s: string): (r: seq<string>)
    ensures AreWords(r)
    decreases |s|
  {
    if s == [] then []
    else if IsSpace(s[0]) then SplitWs(s[1..])
    else
      var w := TakeWord(s);
      [w] + SplitWs(s[|w|..])
  }

  /** `s.replace(pat, repl)` for single characters. */
  function Replace(s: string, pat: char, repl: char): string {
    seq(|s|, i requires 0 <= i < |s| => if s[i] == pat then repl else s[i])
  }

  // ---------------------------------------------------------------------
  // split(sep) and join

  /** A character in none of the pieces, other than the separator, is not in their join. */
  lemma {:induction false} JoinAbsent(ps: seq<string>, sep: char, c: char)
    requires NoneContain(ps, c) && c != sep
    ensures c !in Join(ps, sep)
    decreases |ps|
  {
    if |ps| > 1 {
      JoinAbsent(ps[1..], sep, c);
    }
  }

  lemma JoinCons(x: string, ys: seq<string>, sep: char)
    requires |ys| >= 1
    ensures Join([x] + ys, sep) == x + [sep] + Join(ys, sep)
  {
    assert ([x] + ys)[1..] == ys;
  }

  /** The first piece of a split is everything before the first separator. */
  lemma SplitOnFirst(s: string, sep: char)
    ensures SplitOn(s, sep)[0] == TakeUntil(s, sep)
  {
  }

  /** A split has a single piece exactly when there is no separator to cut at. */
  lemma SplitOnSingle(s: string, sep: char)
    ensures |SplitOn(s, sep)| == 1 <==> sep !in s
  {
    var head := TakeUntil(s, sep);
    if |head| < |s| {
      assert s[|head|] == sep;
    }
  }

  lemma {:induction false} TakeUntilStops(a: string, b: string, sep: char)
    requires sep !in a
    ensures TakeUntil(a + [sep] + b, sep) == a
    decreases |a|
  {
    if a != [] {
      assert (a + [sep] + b)[1..] == a[1..] + [sep] + b;
      TakeUntilStops(a[1..], b, sep);
    }
  }

  /** Splitting at the first separator peels off the piece before it. */
  lemma SplitOnCons(a: string, b: string, sep: char)
    requires sep !in a
    ensures SplitOn(a + [sep] + b, sep) == [a] + SplitOn(b, sep)
  {
    TakeUntilStops(a, b, sep);
    assert (a + [sep] + b)[|a| + 1..] == b;
  }

  /** Round trip: splitting a join of separator-free pieces gives the pieces back. */
  lemma {:induction false} SplitOnJoin(ps: seq<string>, sep: char)
    requires |ps| >= 1 && NoneContain(ps, sep)
    ensures SplitOn(Join(ps, sep), sep) == ps
  {
    if |ps| == 1 {
      assert TakeUntil(ps[0], sep) == ps[0];
    } else {
      JoinCons(ps[0], ps[1..], sep);
      assert ps == [ps[0]] + ps[1..];
      SplitOnCons(ps[0], Join(ps[1..], sep), sep);
      SplitOnJoin(ps[1..], sep);
    }
  }

  lemma JoinHead(ps: seq<string>, sep: char)
    requires |ps| >= 1 && ps[0] != []
    ensures Join(ps, sep) != [] && Join(ps, sep)[0] == ps[0][0]
  {
  }

  // ---------------------------------------------------------------------
  // split() with no argument

  lemma {:induction false} TakeWordStops(w: string, rest: string)
    requires NoSpace(w)
    requires rest == [] || IsSpace(rest[0])
    ensures TakeWord(w + rest) == w
    decreases |w|
  {
    if w != [] {
      assert (w + rest)[1..] == w[1..] + rest;
      TakeWordStops(w[1..], rest);
    }
  }

  /** `split()` finds no word exactly when the input is all whitespace. */
  lemma {:induction false} SplitWsEmptyIff(s: string)
    ensures SplitWs(s) == [] <==> forall i :: 0 <= i < |s| ==> IsSpace(s[i])
    decreases |s|
  {
    if s != [] && IsSpace(s[0]) {
      SplitWsEmptyIff(s[1..]);
      assert forall i :: 1 <= i < |s| ==> s[i] == s[1..][i - 1];
    }
  }

  /** Round trip: `" ".join` of words, split again, gives the words back. */
  lemma {:induction false} SplitWsJoin(ws: seq<string>)
    requires AreWords(ws)
    ensures SplitWs(Join(ws, ' ')) == ws
  {
    if |ws| == 1 {
      TakeWordStops(ws[0], []);
      assert ws[0] + [] == ws[0];
    } else if |ws| >= 2 {
      var rest := Join(ws[1..], ' ');
      JoinCons(ws[0], ws[1..], ' ');
      assert ws == [ws[0]] + ws[1..];
      var s := ws[0] + [' '] + rest;
      TakeWordStops(ws[0], [' '] + rest);
      assert s == ws[0] + ([' '] + rest);
      assert s[|ws[0]|..] == [' '] + rest;
      assert ([' '] + rest)[1..] == rest;
      SplitWsJoin(ws[1..]);
    }
  }

  /** Each whitespace character turned into a plain space. */
  function Blank(s: string): string {
    seq(|s|, i requires 0 <= i < |s| => if IsSpace(s[i]) then ' ' else s[i])
  }

  /** The pieces that are not empty, in order. */
  function NonEmpty(ps: seq<string>): seq<string> {
    if ps == [] then []
    else (if ps[0] == [] then [] else [ps[0]]) + NonEmpty(ps[1..])
  }

  lemma TakeUntilBlank(s: string)
    ensures TakeUntil(Blank(s), ' ') == TakeWord(s)
    decreases |s|
  {
    if s != [] && !IsSpace(s[0]) {
      assert Blank(s)[1..] == Blank(s[1..]);
      TakeUntilBlank(s[1..]);
    }
  }

  lemma SplitOnBlankSpace(s: string)
    requires s != [] && IsSpace(s[0])
    ensures SplitOn(Blank(s), ' ') == [[]] + SplitOn(Blank(s[1..]), ' ')
  {
    assert Blank(s) == [] + [' '] + Blank(s[1..]);
    SplitOnCons([], Blank(s[1..]), ' ');
  }

  /** Splitting a text that holds the separator cuts off its first piece. */
  lemma SplitOnCut(s: string, sep: char)
    requires sep in s
    ensures var h := TakeUntil(s, sep);
      |h| < |s| && SplitOn(s, sep) == [h] + SplitOn(s[|h| + 1..], sep)
  {
    SplitOnSingle(s, sep);
  }

  lemma BlankWord(s: string)
    requires NoSpace(s)
    ensures Blank(s) == s
  {
    var b := Blank(s);
    forall i | 0 <= i < |s| ensures b[i] == s[i] {
    }
  }

  lemma BlankDrop(s: string, k: nat)
    requires k <= |s|
    ensures Blank(s)[k..] == Blank(s[k..])
  {
    var b, rest := Blank(s), s[k..];
    forall i | 0 <= i < |rest| ensures b[k..][i] == Blank(rest)[i] {
      assert rest[i] == s[k + i];
    }
  }

  lemma SplitOnBlankWord(s: string)
    requires s != [] && !IsSpace(s[0])
    ensures var w := TakeWord(s);
      SplitOn(Blank(s), ' ') ==
        if |w| == |s| then [s] else [w] + SplitOn(Blank(s[|w| + 1..]), ' ')
  {
    var w, b := TakeWord(s), Blank(s);
    TakeUntilBlank(s);
    if |w| == |s| {
      assert w == s;
      BlankWord(s);
      SplitOnSingle(s, ' ');
    } else {
      assert b[|w|] == ' ';
      SplitOnCut(b, ' ');
      BlankDrop(s, |w| + 1);
    }
  }

  /** `split()` is the same as cutting at every whitespace character and then
      dropping the empty pieces, as Python's documentation describes it. */
  lemma {:induction false} SplitWsReference(s: string)
    ensures SplitWs(s) == NonEmpty(SplitOn(Blank(s), ' '))
    decreases |s|
  {
    if s == [] {
    } else if IsSpace(s[0]) {
      SplitOnBlankSpace(s);
      var ps := [[]] + SplitOn(Blank(s[1..]), ' ');
      assert ps[1..] == SplitOn(Blank(s[1..]), ' ');
      SplitWsReference(s[1..]);
    } else {
      var w := TakeWord(s);
      SplitOnBlankWord(s);
      if |w| == |s| {
        assert w == s;
        assert NonEmpty([s]) == [s] + NonEmpty([]);
      } else {
        var ps := [w] + SplitOn(Blank(s[|w| + 1..]), ' ');
        assert ps[1..] == SplitOn(Blank(s[|w| + 1..]), ' ');
        assert s[|w|..][1..] == s[|w| + 1..];
        SplitWsReference(s[|w| + 1..]);
      }
    }
  }

  /** No whitespace at either end, none but plain spaces, never two in a row:
      the shape of `" ".join(...)` of words. */
  predicate SingleSpaced(s: string) {
    forall i :: 0 <= i < |s| && IsSpace(s[i]) ==>
      s[i] == ' ' && 0 < i < |s| - 1 && !IsSpace(s[i + 1])
  }

  lemma {:induction false} JoinSingleSpaced(ws: seq<string>)
    requires AreWords(ws)
    ensures SingleSpaced(Join(ws, ' '))
  {
    if |ws| >= 2 {
      var w, rest := ws[0], Join(ws[1..], ' ');
      JoinCons(w, ws[1..], ' ');
      assert ws == [w] + ws[1..];
      JoinSingleSpaced(ws[1..]);
      JoinHead(ws[1..], ' ');
      var s := w + [' '] + rest;
      assert forall i :: 0 <= i < |w| ==> s[i] == w[i];
      forall i | 0 <= i < |s| && IsSpace(s[i])
        ensures s[i] == ' ' && 0 < i < |s| - 1 && !IsSpace(s[i + 1])
      {
        if i > |w| {
          assert s[i] == rest[i - |w| - 1];
          assert i + 1 < |s| ==> s[i + 1] == rest[i - |w|];
        }
      }
    }
  }

  // ---------------------------------------------------------------------
  // replace

  lemma ReplaceAppend(a: string, b: string, pat: char, repl: char)
    ensures Replace(a + b, pat, repl) == Replace(a, pat, repl) + Replace(b, pat, repl)
  {
  }

  lemma ReplaceAbsent(s: string, pat: char, repl: char)
    requires pat !in s
    ensures Replace(s, pat, repl) == s
  {
  }

  /** Replacing the separator of a join by another one re-joins the same pieces. */
  lemma {:induction false} ReplaceJoin(ps: seq<string>, pat: char, repl: char)
    requires NoneContain(ps, pat)
    ensures Replace(Join(ps, pat), pat, repl) == Join(ps, repl)
  {
    if |ps| == 1 {
      ReplaceAbsent(ps[0], pat, repl);
    } else if |ps| >= 2 {
      ReplaceJoin(ps[1..], pat, repl);
      ReplaceAppend(ps[0] + [pat], Join(ps[1..], pat), pat, repl);
      ReplaceAppend(ps[0], [pat], pat, repl);
      ReplaceAbsent(ps[0], pat, repl);
    }
  }

  /** Replacing characters other than `sep` does not move where `sep` cuts. */
  lemma {:induction false} TakeUntilReplace(s: string, sep: char, pat: char, repl: char)
    requires pat != sep && repl != sep
    ensures TakeUntil(Replace(s, pat, repl), sep) == Replace(TakeUntil(s, sep), pat, repl)
    decreases |s|
  {
    if s != [] && s[0] != sep {
      assert Replace(s, pat, repl)[1..] == Replace(s[1..], pat, repl);
      TakeUntilReplace(s[1..], sep, pat, repl);
      ReplaceAppend([s[0]], TakeUntil(s[1..], sep), pat, repl);
    }
  }
}
