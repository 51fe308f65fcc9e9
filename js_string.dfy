/** The ECMAScript string operations the application relies on, on strings as `seq<char>`:
    `trim`, `toLowerCase` (ASCII letters only), `startsWith`, `endsWith`, `includes`,
    `split` on one character and `Array.prototype.join` with a one-character separator. */
module JsString {

  /** The WhiteSpace and LineTerminator code points of ECMAScript: what `trim` removes and
      what the regular-expression class `\s` matches. */
  predicate IsWs(c: char) {
    || c == '\t' || c == '\n' || c == '\U{B}' || c == '\U{C}' || c == '\r' || c == ' '
    || c == '\U{A0}' || c == '\U{1680}' || ('\U{2000}' <= c <= '\U{200A}')
    || c == '\U{2028}' || c == '\U{2029}' || c == '\U{202F}' || c == '\U{205F}'
    || c == '\U{3000}' || c == '\U{FEFF}'
  }

  /** The LineTerminator code points: where `^` and `$` match in a multiline regular
      expression, and what `.` does not match. */
  predicate IsLineTerminator(c: char) {
    c == '\n' || c == '\r' || c == '\U{2028}' || c == '\U{2029}'
  }

  predicate AllWs(s: string) {
    forall i :: 0 <= i < |s| ==> IsWs(s[i])
  }

  predicate StartsWith(s: string, prefix: string) {
    prefix <= s
  }

  predicate EndsWith(s: string, suffix: string) {
    |suffix| <= |s| && s[|s| - |suffix|..] == suffix
  }

  /** A string ends with the last character of any non-empty suffix it ends with. */
  lemma EndsWithLastChar(l: string, e: string)
    requires EndsWith(l, e) && e != []
    ensures l[|l| - 1] == e[|e| - 1]
  {
    assert l[|l| - |e|..][|e| - 1] == e[|e| - 1];
  }

  // ---------------------------------------------------------------- trim

  /** `trimStart`: the suffix left after every leading whitespace character is removed. */
  function TrimStart(s: string): (r: string)
    ensures |r| <= |s| && r == s[|s| - |r|..]
    ensures AllWs(s[..|s| - |r|])
    ensures r == [] || !IsWs(r[0])
  {
    if s != [] && IsWs(s[0]) then
      var r := TrimStart(s[1..]);
      WsPrefixGrows(s, r);
      r
    else s
  }

  /** A whitespace character in front of a string whose suffix `r` follows whitespace. */
  lemma WsPrefixGrows(s: string, r: string)
    requires s != [] && IsWs(s[0])
    requires |r| <= |s| - 1 && r == s[1..][|s| - 1 - |r|..] && AllWs(s[1..][..|s| - 1 - |r|])
    ensures r == s[|s| - |r|..] && AllWs(s[..|s| - |r|])
  {
    assert s[..|s| - |r|] == [s[0]] + s[1..][..|s| - 1 - |r|];
  }

  /** `trimEnd`: the prefix left after every trailing whitespace character is removed. */
  function TrimEnd(s: string): (r: string)
    ensures r <= s
    ensures AllWs(s[|r|..])
    ensures r == [] || !IsWs(r[|r| - 1])
  {
    if s != [] && IsWs(s[|s| - 1]) then
      var r := TrimEnd(s[..|s| - 1]);
      WsSuffixGrows(s, r);
      r
    else s
  }

  /** A whitespace character after a string whose prefix `r` precedes whitespace. */
  lemma WsSuffixGrows(s: string, r: string)
    requires s != [] && IsWs(s[|s| - 1])
    requires r <= s[..|s| - 1] && AllWs(s[..|s| - 1][|r|..])
    ensures r <= s && AllWs(s[|r|..])
  {
    assert s[|r|..] == s[..|s| - 1][|r|..] + [s[|s| - 1]];
  }

  lemma AllWsAppend(a: string, b: string)
    requires AllWs(a) && AllWs(b)
    ensures AllWs(a + b)
  {
    forall i | 0 <= i < |a + b| ensures IsWs((a + b)[i]) {
      if i < |a| { assert (a + b)[i] == a[i]; } else { assert (a + b)[i] == b[i - |a|]; }
    }
  }

  /** `trim`: empty exactly when the string is all whitespace, and otherwise beginning and
      ending with a character that is not whitespace. */
  function Trim(s: string): (r: string)
    ensures r == [] <==> AllWs(s)
    ensures r != [] ==> !IsWs(r[0]) && !IsWs(r[|r| - 1])
  {
    var t := TrimStart(s);
    var r := TrimEnd(t);
    TrimFacts(s, |s| - |t|, r);
    r
  }

  /** Removing a whitespace prefix `s[..a]` and then a whitespace suffix leaves `r`. */
  lemma TrimFacts(s: string, a: nat, r: string)
    requires a <= |s| && AllWs(s[..a]) && (a == |s| || !IsWs(s[a]))
    requires r <= s[a..] && AllWs(s[a + |r|..])
    requires r == [] || !IsWs(r[|r| - 1])
    ensures r == [] <==> AllWs(s)
    ensures r != [] ==> !IsWs(r[0]) && !IsWs(r[|r| - 1])
  {
    if r == [] {
      assert s == s[..a] + s[a..];
      AllWsAppend(s[..a], s[a..]);
    } else {
      assert r[0] == s[a];
    }
  }

  /** `trim` keeps a contiguous slice `s[a..b]` of its input and removes nothing but
      whitespace. */
  lemma TrimIsSlice(s: string) returns (a: nat, b: nat)
    ensures a <= b <= |s| && Trim(s) == s[a..b]
    ensures AllWs(s[..a]) && AllWs(s[b..])
  {
    var t := TrimStart(s);
    var r := TrimEnd(t);
    a, b := SliceBetween(s, t, r);
    assert Trim(s) == r;
  }

  /** Removing the whitespace prefix that leaves `t`, then the whitespace suffix of `t` that
      leaves `r`, keeps the slice `s[a..b]`. */
  lemma SliceBetween(s: string, t: string, r: string) returns (a: nat, b: nat)
    requires |t| <= |s| && t == s[|s| - |t|..] && AllWs(s[..|s| - |t|])
    requires r <= t && AllWs(t[|r|..])
    ensures a <= b <= |s| && r == s[a..b]
    ensures AllWs(s[..a]) && AllWs(s[b..])
  {
    a, b := |s| - |t|, |s| - |t| + |r|;
    assert s[a..b] == r;
    assert s[b..] == t[|r|..];
  }

  lemma {:induction false} TrimStartIdempotent(s: string)
    requires s == [] || !IsWs(s[0])
    ensures TrimStart(s) == s
  {
  }

  lemma {:induction false} TrimEndIdempotent(s: string)
    requires s == [] || !IsWs(s[|s| - 1])
    ensures TrimEnd(s) == s
  {
  }

  /** Trimming twice is trimming once. */
  lemma TrimIdempotent(s: string)
    ensures Trim(Trim(s)) == Trim(s)
  {
    var r := Trim(s);
    TrimStartIdempotent(r);
    TrimEndIdempotent(r);
    assert Trim(r) == TrimEnd(TrimStart(r));
  }

  // ---------------------------------------------------------------- case

  /** `toLowerCase` on one character, for the ASCII letters. */
  function LowerChar(c: char): char {
    if 'A' <= c <= 'Z' then (c as int + 32) as char else c
  }

  /** `toLowerCase`: a string of the same length with every ASCII capital replaced by its
      small letter and nothing else changed, so that no ASCII capital is left. */
  function Lower(s: string): (r: string)
    ensures |r| == |s|
    ensures forall i :: 0 <= i < |s| ==> r[i] == LowerChar(s[i])
    ensures forall i :: 0 <= i < |r| ==> !('A' <= r[i] <= 'Z')
  {
    if s == [] then [] else [LowerChar(s[0])] + Lower(s[1..])
  }

  /** Lower-casing a lower-cased string changes nothing. */
  lemma LowerIdempotent(s: string)
    ensures Lower(Lower(s)) == Lower(s)
  {
    var l := Lower(s);
    assert forall i :: 0 <= i < |l| ==> Lower(l)[i] == l[i];
  }

  // ---------------------------------------------------------------- includes

  predicate OccursAt(s: string, q: string, i: int) {
    0 <= i && i + |q| <= |s| && s[i..i + |q|] == q
  }

  /** `includes`: whether `q` is a prefix of `s` or of one of its suffixes. */
  predicate Includes(s: string, q: string)
    decreases |s|
  {
    q <= s || (s != [] && Includes(s[1..], q))
  }

  /** `includes` holds exactly when `q` occurs in `s` at some position. */
  lemma {:induction false} IncludesIff(s: string, q: string)
    ensures Includes(s, q) <==> exists i :: OccursAt(s, q, i)
    decreases |s|
  {
    if q <= s {
      assert OccursAt(s, q, 0);
    } else if s != [] {
      IncludesIff(s[1..], q);
      if Includes(s[1..], q) {
        var i :| OccursAt(s[1..], q, i);
        OccursShift(s, q, i);
      }
      if i :| OccursAt(s, q, i) {
        OccursUnshift(s, q, i);
      }
    }
  }

  lemma OccursShift(s: string, q: string, i: int)
    requires s != [] && OccursAt(s[1..], q, i)
    ensures OccursAt(s, q, i + 1)
  {
    assert s[i + 1..i + 1 + |q|] == s[1..][i..i + |q|];
  }

  lemma OccursUnshift(s: string, q: string, i: int)
    requires s != [] && !(q <= s) && OccursAt(s, q, i)
    ensures OccursAt(s[1..], q, i - 1)
  {
    assert i != 0;
    assert s[1..][i - 1..i - 1 + |q|] == s[i..i + |q|];
  }

  /** Every string includes the empty string. */
  lemma IncludesEmpty(s: string)
    ensures Includes(s, "")
  {
  }

  // ---------------------------------------------------------------- split and join

  /** `s.split(d)`: the pieces of `s` between occurrences of `d`; never an empty array, and no
      piece contains `d`. */
  function Split(s: string, d: char): (r: seq<string>)
    ensures |r| >= 1
    ensures forall i :: 0 <= i < |r| ==> d !in r[i]
    decreases |s|
  {
    if s == [] then [""]
    else
      var r := Split(s[..|s| - 1], d);
      var c := s[|s| - 1];
      if c == d then r + [""] else r[..|r| - 1] + [r[|r| - 1] + [c]]
  }

  /** `ws.join(d)`: the pieces with one `d` between neighbours. */
  function Join(ws: seq<string>, d: char): string
  {
    if |ws| == 0 then ""
    else if |ws| == 1 then ws[0]
    else Join(ws[..|ws| - 1], d) + [d] + ws[|ws| - 1]
  }

  /** A join of two or more pieces is the join of all but the last, `d`, and the last. */
  lemma JoinLast(ws: seq<string>, d: char)
    requires |ws| >= 2
    ensures Join(ws, d) == Join(ws[..|ws| - 1], d) + [d] + ws[|ws| - 1]
  {
  }

  /** Two pieces are joined with one `d` between them. */
  lemma JoinTwo(a: string, b: string, d: char)
    ensures Join([a, b], d) == a + [d] + b
  {
    assert [a, b][..1] == [a];
  }

  /** Joining the pieces of a split with the same separator gives back the string. */
  lemma {:induction false} JoinSplit(s: string, d: char)
    ensures Join(Split(s, d), d) == s
    decreases |s|
  {
    if s != [] {
      var init, c := s[..|s| - 1], s[|s| - 1];
      var r := Split(init, d);
      JoinSplit(init, d);
      if c == d {
        assert (r + [""])[..|r|] == r;
      } else {
        var r' := r[..|r| - 1] + [r[|r| - 1] + [c]];
        if |r| > 1 {
          assert r'[..|r'| - 1] == r[..|r| - 1];
        }
      }
      assert s == init + [c];
    }
  }

  lemma {:induction false} SplitFree(w: string, d: char)
    requires d !in w
    ensures Split(w, d) == [w]
    decreases |w|
  {
    if w != [] {
      SplitFree(w[..|w| - 1], d);
      assert w == w[..|w| - 1] + [w[|w| - 1]];
    }
  }

  lemma {:induction false} SplitExtend(s: string, w: string, d: char)
    requires d !in w
    ensures Split(s + [d] + w, d) == Split(s, d) + [w]
    decreases |w|
  {
    if w == [] {
      assert (s + [d] + w)[..|s|] == s;
    } else {
      var w' := w[..|w| - 1];
      SplitExtend(s, w', d);
      assert (s + [d] + w)[..|s + [d] + w| - 1] == s + [d] + w';
      assert w == w' + [w[|w| - 1]];
    }
  }

  /** Splitting a join of separator-free pieces gives back the pieces. */
  lemma {:induction false} SplitJoin(ws: seq<string>, d: char)
    requires |ws| >= 1
    requires forall i :: 0 <= i < |ws| ==> d !in ws[i]
    ensures Split(Join(ws, d), d) == ws
    decreases |ws|
  {
    if |ws| == 1 {
      SplitFree(ws[0], d);
    } else {
      var init := ws[..|ws| - 1];
      SplitJoin(init, d);
      SplitExtend(Join(init, d), ws[|ws| - 1], d);
      assert ws == init + [ws[|ws| - 1]];
    }
  }

  /** Joining a concatenation joins the two halves with one separator between them. */
  lemma {:induction false} JoinAppend(a: seq<string>, b: seq<string>, d: char)
    requires |a| >= 1 && |b| >= 1
    ensures Join(a + b, d) == Join(a, d) + [d] + Join(b, d)
    decreases |b|
  {
    if |b| == 1 {
      assert (a + b)[..|a + b| - 1] == a;
    } else {
      var b' := b[..|b| - 1];
      JoinAppend(a, b', d);
      assert (a + b)[..|a + b| - 1] == a + b';
    }
  }

  /** The last piece of a split is the longest suffix free of the separator: the whole
      string when it holds no separator, and otherwise what follows its last separator. */
  lemma {:induction false} SplitLast(s: string, d: char)
    ensures var r := Split(s, d); var w := r[|r| - 1];
      EndsWith(s, w) && d !in w && (|w| < |s| ==> s[|s| - |w| - 1] == d)
    decreases |s|
  {
    if s != [] {
      var init, c := s[..|s| - 1], s[|s| - 1];
      SplitLast(init, d);
      var r := Split(init, d);
      var w := r[|r| - 1];
      if c != d {
        assert Split(s, d)[|Split(s, d)| - 1] == w + [c];
        assert s == init + [c];
        SuffixExtend(init, c, w, d);
      }
    }
  }

  /** A `d`-free suffix `w` of `init` that follows a `d` or starts `init` grows into the
      suffix `w + [c]` of `init + [c]` with the same property. */
  lemma SuffixExtend(init: string, c: char, w: string, d: char)
    requires EndsWith(init, w) && (|w| < |init| ==> init[|init| - |w| - 1] == d)
    ensures var s := init + [c];
      EndsWith(s, w + [c]) && (|w| + 1 < |s| ==> s[|s| - |w| - 2] == d)
  {
    var s := init + [c];
    assert s[|s| - |w| - 1..] == init[|init| - |w|..] + [c];
    if |w| + 1 < |s| {
      assert s[|s| - |w| - 2] == init[|init| - |w| - 1];
    }
  }

  /** `s.split(d).pop()`: the text after the last `d`, or all of `s` when it holds none. */
  function AfterLast(s: string, d: char): string {
    var r := Split(s, d); r[|r| - 1]
  }

  lemma AfterLastIsSuffix(s: string, d: char)
    ensures var w := AfterLast(s, d);
      EndsWith(s, w) && d !in w && (d in s <==> |w| < |s|)
      && (|w| < |s| ==> s[|s| - |w| - 1] == d)
  {
    SplitLast(s, d);
    var w := AfterLast(s, d);
    if |w| == |s| {
      assert s == w;
    } else {
      assert s[|s| - |w| - 1] in s;
    }
  }

  // ---------------------------------------------------------------- concatenation

  /** The pieces that `piece` gives for the elements of `xs`, one after another, as a loop
      that appends them would build them. */
  function Concat<T>(xs: seq<T>, piece: T -> string): string
    decreases |xs|
  {
    if xs == [] then "" else Concat(xs[..|xs| - 1], piece) + piece(xs[|xs| - 1])
  }

  /** Concatenation distributes over appending sequences, so the pieces keep their order. */
  lemma {:induction false} ConcatAppend<T>(a: seq<T>, b: seq<T>, piece: T -> string)
    ensures Concat(a + b, piece) == Concat(a, piece) + Concat(b, piece)
    decreases |b|
  {
    if b == [] {
      assert a + b == a;
    } else {
      var b0 := b[..|b| - 1];
      ConcatAppend(a, b0, piece);
      assert (a + b)[..|a + b| - 1] == a + b0;
    }
  }

  lemma AppendRegroup(a: string, b: string, c: string, d: string)
    ensures a + (b + c) + d == a + b + c + d
  {
  }

  /** One more element adds its piece at the end. */
  lemma ConcatStep<T>(xs: seq<T>, i: nat, piece: T -> string)
    requires i < |xs|
    ensures Concat(xs[..i + 1], piece) == Concat(xs[..i], piece) + piece(xs[i])
  {
    assert xs[..i + 1][..i] == xs[..i];
  }

  /** An element in the middle adds its piece between those of its neighbours. */
  lemma ConcatKeep<T>(a: seq<T>, x: T, b: seq<T>, piece: T -> string)
    ensures Concat(a + [x] + b, piece) == Concat(a, piece) + piece(x) + Concat(b, piece)
  {
    ConcatAppend(a + [x], b, piece);
    ConcatAppend(a, [x], piece);
    assert [x][..0] == [];
  }

  /** An element whose piece is empty can be dropped. */
  lemma ConcatSkip<T>(a: seq<T>, x: T, b: seq<T>, piece: T -> string)
    requires piece(x) == ""
    ensures Concat(a + [x] + b, piece) == Concat(a + b, piece)
  {
    ConcatAppend(a + [x], b, piece);
    ConcatAppend(a, [x], piece);
    ConcatAppend(a, b, piece);
    assert [x][..0] == [];
  }

  /** The concatenation is all whitespace exactly when every piece is. */
  lemma {:induction false} ConcatAllWs<T>(xs: seq<T>, piece: T -> string)
    ensures AllWs(Concat(xs, piece)) <==> forall i :: 0 <= i < |xs| ==> AllWs(piece(xs[i]))
    decreases |xs|
  {
    if xs != [] {
      var init := xs[..|xs| - 1];
      ConcatAllWs(init, piece);
      var a, b := Concat(init, piece), piece(xs[|xs| - 1]);
      if AllWs(a) && AllWs(b) {
        AllWsAppend(a, b);
        forall i | 0 <= i < |xs| ensures AllWs(piece(xs[i])) {
          if i < |init| { assert xs[i] == init[i]; }
        }
      }
      if AllWs(a + b) {
        assert a == (a + b)[..|a|] && b == (a + b)[|a|..];
        assert forall i :: 0 <= i < |init| ==> init[i] == xs[i];
      }
      if forall i :: 0 <= i < |xs| ==> AllWs(piece(xs[i])) {
        assert forall i :: 0 <= i < |init| ==> init[i] == xs[i];
        AllWsAppend(a, b);
      }
    }
  }

  // ---------------------------------------------------------------- whitespace runs

  /** The characters of `s` that are not whitespace, in order. */
  function NonWs(s: string): string {
    Concat(s, NonWsChar)
  }

  function NonWsChar(c: char): string {
    if IsWs(c) then [] else [c]
  }

  lemma NonWsCons(c: char, s: string)
    ensures NonWs([c] + s) == NonWsChar(c) + NonWs(s)
  {
    NonWsAppend([c], s);
    assert [c][..0] == [];
    assert NonWs([c]) == Concat([c][..0], NonWsChar) + NonWsChar(c);
  }

  lemma NonWsAppend(a: string, b: string)
    ensures NonWs(a + b) == NonWs(a) + NonWs(b)
  {
    ConcatAppend(a, b, NonWsChar);
  }

  lemma {:induction false} NonWsOfWs(s: string)
    requires AllWs(s)
    ensures NonWs(s) == []
    decreases |s|
  {
    if s != [] {
      NonWsOfWs(s[..|s| - 1]);
    }
  }

  /** `trim` removes whitespace only. */
  lemma NonWsTrim(s: string)
    ensures NonWs(Trim(s)) == NonWs(s)
  {
    var a, b := TrimIsSlice(s);
    var x, y, z := s[..a], s[a..b], s[b..];
    SliceThree(s, a, b);
    NonWsAround(x, y, z);
  }

  lemma SliceThree(s: string, a: nat, b: nat)
    requires a <= b <= |s|
    ensures s == s[..a] + s[a..b] + s[b..]
  {
  }

  lemma NonWsAround(x: string, y: string, z: string)
    requires AllWs(x) && AllWs(z)
    ensures NonWs(x + y + z) == NonWs(y)
  {
    NonWsAppend(x + y, z);
    NonWsAppend(x, y);
    NonWsOfWs(x);
    NonWsOfWs(z);
  }

  /** Joining with a space adds whitespace only. */
  lemma {:induction false} NonWsJoin(ws: seq<string>)
    ensures NonWs(Join(ws, ' ')) == Concat(ws, NonWs)
    decreases |ws|
  {
    if |ws| == 1 {
      assert ws[..0] == [];
    } else if |ws| > 1 {
      var init := ws[..|ws| - 1];
      NonWsJoin(init);
      NonWsAppend(Join(init, ' ') + [' '], ws[|ws| - 1]);
      NonWsAppend(Join(init, ' '), [' ']);
      assert NonWs([' ']) == [];
    }
  }

  /** No two whitespace characters stand next to each other. */
  predicate NoWsPair(s: string) {
    forall i :: 0 <= i < |s| - 1 ==> !(IsWs(s[i]) && IsWs(s[i + 1]))
  }

  /** The only whitespace is the plain space. */
  predicate OnlySpaces(s: string) {
    forall i :: 0 <= i < |s| && IsWs(s[i]) ==> s[i] == ' '
  }

  /** `replace(/\s+/g, ' ')`: every run of whitespace becomes a single space. */
  function Collapse(s: string): (r: string)
    ensures NoWsPair(r) && OnlySpaces(r)
    ensures NonWs(r) == NonWs(s)
    ensures s != [] && IsWs(s[0]) ==> r != [] && r[0] == ' '
  {
    CollapseAfterFacts(s, false);
    CollapseAfter(s, false)
  }

  /** The replacement of the rest of the input, `inRun` telling whether the character just
      before it was whitespace already replaced by a space. */
  function CollapseAfter(s: string, inRun: bool): string
    decreases |s|
  {
    if s == [] then []
    else if IsWs(s[0]) then
      var t := CollapseAfter(s[1..], true);
      if inRun then t else [' '] + t
    else [s[0]] + CollapseAfter(s[1..], false)
  }

  /** The replacement leaves no two whitespace characters in a row and no whitespace but the
      space, keeps every other character in order, and starts a leading run with a space
      unless the run continues one. */
  lemma {:induction false} CollapseAfterFacts(s: string, inRun: bool)
    ensures var r := CollapseAfter(s, inRun);
      && |r| <= |s|
      && NoWsPair(r) && OnlySpaces(r)
      && NonWs(r) == NonWs(s)
      && (inRun && r != [] ==> !IsWs(r[0]))
      && (!inRun && s != [] && IsWs(s[0]) ==> r != [] && r[0] == ' ')
    decreases |s|
  {
    if s != [] {
      assert s == [s[0]] + s[1..];
      NonWsCons(s[0], s[1..]);
      var st := IsWs(s[0]);
      CollapseAfterFacts(s[1..], st);
      var t := CollapseAfter(s[1..], st);
      if st {
        if !inRun {
          NonWsCons(' ', t);
          ConsKeepsSpacing(' ', t);
        }
      } else {
        NonWsCons(s[0], t);
        ConsKeepsSpacing(s[0], t);
      }
    }
  }

  /** Putting a character in front of a well-spaced string that does not start with
      whitespace, or a non-whitespace character in front of any well-spaced string. */
  lemma ConsKeepsSpacing(c: char, t: string)
    requires NoWsPair(t) && OnlySpaces(t)
    requires IsWs(c) ==> c == ' ' && (t == [] || !IsWs(t[0]))
    ensures NoWsPair([c] + t) && OnlySpaces([c] + t)
  {
    var r := [c] + t;
    assert forall i :: 1 <= i < |r| ==> r[i] == t[i - 1];
  }

  /** A string with single spaces between words is left alone, so collapsing twice is
      collapsing once. */
  lemma {:induction false} CollapseFixed(s: string, inRun: bool)
    requires NoWsPair(s) && OnlySpaces(s)
    requires inRun && s != [] ==> !IsWs(s[0])
    ensures CollapseAfter(s, inRun) == s
    decreases |s|
  {
    if s != [] {
      CollapseFixed(s[1..], IsWs(s[0]));
    }
  }

  lemma CollapseIdempotent(s: string)
    ensures Collapse(Collapse(s)) == Collapse(s)
  {
    CollapseFixed(Collapse(s), false);
  }

  /** No character of `s` is whitespace. */
  predicate NoWs(s: string) {
    forall i :: 0 <= i < |s| ==> !IsWs(s[i])
  }

  /** A string without whitespace is left alone. */
  lemma {:induction false} CollapseNoWs(s: string, inRun: bool)
    requires NoWs(s)
    ensures CollapseAfter(s, inRun) == s
    decreases |s|
  {
    if s != [] {
      CollapseNoWs(s[1..], false);
    }
  }

  /** What the first character of the rest of the input is replaced with. */
  function CollapseHead(c: char, inRun: bool): string {
    if !IsWs(c) then [c] else if inRun then "" else " "
  }

  /** One step of the replacement, on a string `x + y` whose first character is in `x`. */
  lemma CollapseUnfold(x: string, y: string, inRun: bool)
    requires x != []
    ensures CollapseAfter(x + y, inRun) == CollapseHead(x[0], inRun) + CollapseAfter(x[1..] + y, IsWs(x[0]))
  {
    var xy := x + y;
    assert xy[0] == x[0] && xy[1..] == x[1..] + y;
  }

  /** Whether the replacement is inside a whitespace run after reading `x`. */
  function EndState(x: string, inRun: bool): bool {
    if x == [] then inRun else IsWs(x[|x| - 1])
  }

  lemma EndStateStep(x: string, inRun: bool)
    requires x != []
    ensures EndState(x[1..], IsWs(x[0])) == EndState(x, inRun)
  {
  }

  lemma Regroup(all: string, front: string, h: string, a: string, b: string)
    requires all == h + (a + b) && front == h + a
    ensures all == front + b
  {
  }

  /** A string without whitespace is its own collapse. */
  lemma CollapseWord(s: string)
    requires NoWs(s)
    ensures Collapse(s) == s
  {
    CollapseNoWs(s, false);
  }

  /** The replacement works piece by piece: the second piece starts in the state the first
      one ends in. */
  lemma {:induction false} CollapseConcat(x: string, y: string, inRun: bool)
    ensures CollapseAfter(x + y, inRun) == CollapseAfter(x, inRun) + CollapseAfter(y, EndState(x, inRun))
    decreases |x|
  {
    if x == [] {
      assert x + y == y;
    } else {
      var st := IsWs(x[0]);
      CollapseUnfold(x, y, inRun);
      CollapseUnfold(x, [], inRun);
      assert x + [] == x && x[1..] + [] == x[1..];
      CollapseConcat(x[1..], y, st);
      EndStateStep(x, inRun);
      Regroup(CollapseAfter(x + y, inRun), CollapseAfter(x, inRun), CollapseHead(x[0], inRun),
        CollapseAfter(x[1..], st), CollapseAfter(y, EndState(x, inRun)));
    }
  }

  /** A run of whitespace becomes one space, or nothing when it continues a run. */
  lemma {:induction false} CollapseWsRun(w: string, inRun: bool)
    requires w != [] && AllWs(w)
    ensures CollapseAfter(w, inRun) == if inRun then "" else " "
    decreases |w|
  {
    assert IsWs(w[0]);
    if |w| > 1 {
      CollapseWsRun(w[1..], true);
    }
  }

  /** A whitespace run between two pieces that do not touch it with whitespace becomes a
      single space: the words on either side stay apart. */
  lemma CollapseSeparates(x: string, w: string, y: string)
    requires x == [] || !IsWs(x[|x| - 1])
    requires w != [] && AllWs(w)
    requires y == [] || !IsWs(y[0])
    ensures Collapse(x + w + y) == Collapse(x) + " " + Collapse(y)
  {
    RunBetween(x, w, y);
  }

  lemma RunBetween(x: string, w: string, y: string)
    requires x == [] || !IsWs(x[|x| - 1])
    requires w != [] && AllWs(w)
    requires y == [] || !IsWs(y[0])
    ensures CollapseAfter(x + w + y, false) == CollapseAfter(x, false) + " " + CollapseAfter(y, false)
  {
    assert x + w + y == x + (w + y);
    CollapseConcat(x, w + y, false);
    EndStateWord(x);
    CollapseConcat(w, y, false);
    EndStateRun(w);
    CollapseWsRun(w, false);
    WordStart(y);
    Regroup3(CollapseAfter(x + (w + y), false), CollapseAfter(x, false),
      CollapseAfter(w + y, false), CollapseAfter(w, false), CollapseAfter(y, true),
      CollapseAfter(y, false));
  }

  lemma EndStateWord(x: string)
    requires x == [] || !IsWs(x[|x| - 1])
    ensures !EndState(x, false)
  {
  }

  lemma EndStateRun(w: string)
    requires w != [] && AllWs(w)
    ensures EndState(w, false)
  {
    assert IsWs(w[|w| - 1]);
  }

  lemma Regroup3(all: string, a: string, rest: string, sp: string, b: string, b': string)
    requires all == a + rest && rest == sp + b && sp == " " && b == b'
    ensures all == a + " " + b'
  {
  }

  /** A piece that does not start with whitespace is replaced alike inside or outside a
      run. */
  lemma WordStart(y: string)
    requires y == [] || !IsWs(y[0])
    ensures CollapseAfter(y, true) == CollapseAfter(y, false)
  {
  }

  /** Joining words (non-empty, without whitespace) with spaces gives a string that
      collapsing leaves alone, and that starts and ends with a word character. */
  lemma {:induction false} CollapseJoinWords(ws: seq<string>)
    requires forall i :: 0 <= i < |ws| ==> ws[i] != [] && NoWs(ws[i])
    ensures Collapse(Join(ws, ' ')) == Join(ws, ' ')
    ensures |ws| >= 1 ==> var j := Join(ws, ' ');
      j != [] && !IsWs(j[0]) && !IsWs(j[|j| - 1])
    decreases |ws|
  {
    if |ws| == 1 {
      CollapseNoWs(ws[0], false);
    } else if |ws| > 1 {
      var init, last := ws[..|ws| - 1], ws[|ws| - 1];
      CollapseJoinWords(init);
      var ji := Join(init, ' ');
      CollapseSeparates(ji, " ", last);
      CollapseNoWs(last, false);
      var j := ji + " " + last;
      assert Join(ws, ' ') == j;
      assert j[0] == ji[0] && j[|j| - 1] == last[|last| - 1];
    }
  }

  /** A slice of a string without whitespace pairs has none either. */
  lemma SliceKeepsSpacing(s: string, a: nat, b: nat)
    requires a <= b <= |s| && NoWsPair(s) && OnlySpaces(s)
    ensures NoWsPair(s[a..b]) && OnlySpaces(s[a..b])
  {
    assert forall i :: 0 <= i < b - a ==> s[a..b][i] == s[a + i];
  }
}
