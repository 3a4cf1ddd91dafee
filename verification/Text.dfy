/** String operations shared by the models: splitting and joining at a separator,
    lexical cleaning of rooted paths, and decimal numerals. */
module Text {

  datatype Option<+T> = None | Some(value: T)

  /** `strings.Split(s, sep)` for a one-character separator: always at least one piece. */
  function Split(s: string, sep: char): (pieces: seq<string>)
    ensures |pieces| >= 1
    ensures forall p :: p in pieces ==> sep !in p
  {
    if s == [] then [[]]
    else
      var rest := Split(s[1..], sep);
      if s[0] == sep then [[]] + rest else [[s[0]] + rest[0]] + rest[1..]
  }

  /** `strings.Join(pieces, sep)`. */
  function Join(pieces: seq<string>, sep: char): string {
    if |pieces| == 0 then []
    else if |pieces| == 1 then pieces[0]
    else pieces[0] + [sep] + Join(pieces[1..], sep)
  }

  lemma {:induction false} SplitPiece(p: string, sep: char)
    requires sep !in p
    ensures Split(p, sep) == [p]
  {
    if p != [] {
      SplitPiece(p[1..], sep);
      assert [p[0]] + p[1..] == p;
    }
  }

  lemma {:induction false} SplitPrefix(p: string, tail: string, sep: char)
    requires sep !in p
    ensures Split(p + [sep] + tail, sep) == [p] + Split(tail, sep)
  {
    var s := p + [sep] + tail;
    if p == [] {
      assert s[1..] == tail;
    } else {
      SplitPrefix(p[1..], tail, sep);
      assert s[1..] == p[1..] + [sep] + tail;
      assert [p[0]] + p[1..] == p;
    }
  }

  /** Splitting undoes joining when no piece holds the separator. */
  lemma {:induction false} SplitJoin(pieces: seq<string>, sep: char)
    requires |pieces| >= 1
    requires forall p :: p in pieces ==> sep !in p
    ensures Split(Join(pieces, sep), sep) == pieces
  {
    if |pieces| == 1 {
      SplitPiece(pieces[0], sep);
    } else {
      SplitJoin(pieces[1..], sep);
      SplitPrefix(pieces[0], Join(pieces[1..], sep), sep);
      assert [pieces[0]] + pieces[1..] == pieces;
    }
  }

  /** Joining undoes splitting. */
  lemma {:induction false} JoinSplit(s: string, sep: char)
    ensures Join(Split(s, sep), sep) == s
  {
    if s != [] {
      var rest := Split(s[1..], sep);
      JoinSplit(s[1..], sep);
      assert s == [s[0]] + s[1..];
      if s[0] == sep {
        assert ([[]] + rest)[1..] == rest;
        assert [] + [sep] + Join(rest, sep) == [s[0]] + s[1..];
      } else {
        var pieces := [[s[0]] + rest[0]] + rest[1..];
        assert pieces[1..] == rest[1..];
        if |rest| > 1 {
          assert ([s[0]] + rest[0]) + [sep] + Join(rest[1..], sep) == [s[0]] + (rest[0] + [sep] + Join(rest[1..], sep));
        }
      }
    }
  }

  /** A path component that names something: not empty, not `.`, not `..`, no slash. */
  predicate PlainName(name: string) {
    name != "" && name != "." && name != ".." && '/' !in name
  }

  /** The lexical rules of `path.Clean` on a rooted path, component by component:
      empty and `.` vanish, `..` drops the component before it and is a no-op at the top. */
  function Normalize(comps: seq<string>): (out: seq<string>)
    requires forall c :: c in comps ==> '/' !in c
    ensures forall c :: c in out ==> PlainName(c)
  {
    if comps == [] then []
    else
      var init := Normalize(comps[..|comps| - 1]);
      var c := comps[|comps| - 1];
      if c == "" || c == "." then init
      else if c == ".." then (if init == [] then [] else init[..|init| - 1])
      else init + [c]
  }

  /** Names stay as they are, all of them. */
  lemma {:induction false} NormalizePlain(comps: seq<string>)
    requires forall c :: c in comps ==> PlainName(c)
    ensures (forall c :: c in comps ==> '/' !in c) && Normalize(comps) == comps
  {
    if comps != [] {
      var init, c := comps[..|comps| - 1], comps[|comps| - 1];
      assert c in comps && forall x :: x in init ==> x in comps;
      NormalizePlain(init);
      assert comps == init + [c];
    }
  }

  /** What comes before matters only through what it normalizes to. */
  lemma {:induction false} NormalizeContext(a: seq<string>, a': seq<string>, b: seq<string>)
    requires forall c :: c in a + a' + b ==> '/' !in c
    requires Normalize(a) == Normalize(a')
    ensures (forall c :: c in a + b ==> '/' !in c) && (forall c :: c in a' + b ==> '/' !in c)
    ensures Normalize(a + b) == Normalize(a' + b)
  {
    if b == [] {
      assert a + b == a && a' + b == a';
    } else {
      var init, c := b[..|b| - 1], b[|b| - 1];
      assert forall x :: x in a + a' + init ==> x in a + a' + b;
      NormalizeContext(a, a', init);
      assert (a + b)[..|a + b| - 1] == a + init && (a' + b)[..|a' + b| - 1] == a' + init;
      assert (a + b)[|a + b| - 1] == c && (a' + b)[|a' + b| - 1] == c;
    }
  }

  lemma NormalizeLast(a: seq<string>, c: string)
    requires forall x :: x in a + [c] ==> '/' !in x
    ensures (forall x :: x in a ==> '/' !in x)
    ensures var n := Normalize(a);
            Normalize(a + [c]) == if c == "" || c == "." then n
                                  else if c == ".." then (if n == [] then [] else n[..|n| - 1])
                                  else n + [c]
  {
    assert (a + [c])[..|a + [c]| - 1] == a && (a + [c])[|a + [c]| - 1] == c;
    assert forall x :: x in a ==> x in a + [c];
  }

  /** Wherever they stand, `.` and empty components vanish, and `..` takes the name before it
      along, or vanishes at the top. */
  lemma NormalizeDots(a: seq<string>, c: string, b: seq<string>)
    requires (forall x :: x in a + b ==> '/' !in x) && PlainName(c)
    ensures forall x :: x in a + ["."] + b || x in a + [""] + b ==> '/' !in x
    ensures forall x :: x in a + [c, ".."] + b || x in [".."] + b ==> '/' !in x
    ensures Normalize(a + ["."] + b) == Normalize(a + b)
    ensures Normalize(a + [""] + b) == Normalize(a + b)
    ensures Normalize(a + [c, ".."] + b) == Normalize(a + b)
    ensures (forall x :: x in b ==> '/' !in x) && Normalize([".."] + b) == Normalize(b)
  {
    NormalizeLast(a, ".");
    NormalizeContext(a + ["."], a, b);
    NormalizeLast(a, "");
    NormalizeContext(a + [""], a, b);
    NormalizeLast(a, c);
    NormalizeLast(a + [c], "..");
    assert a + [c] + [".."] == a + [c, ".."];
    NormalizeContext(a + [c, ".."], a, b);
    NormalizeLast([], "..");
    assert [] + [".."] == [".."] && [] + b == b;
    NormalizeContext([".."], [], b);
  }

  /** The components of `path.Clean("/" + rel)`. */
  function RootedComponents(rel: string): (out: seq<string>)
    ensures forall c :: c in out ==> PlainName(c)
  {
    Normalize(Split("/" + rel, '/'))
  }

  /** `path.Clean("/" + rel)` as a string. */
  function CleanRooted(rel: string): string {
    "/" + Join(RootedComponents(rel), '/')
  }

  /** The components of a path that is clean already are those it was joined from. */
  lemma RootedPlain(comps: seq<string>)
    requires forall c :: c in comps ==> PlainName(c)
    ensures RootedComponents(Join(comps, '/')) == comps
    ensures CleanRooted(Join(comps, '/')) == "/" + Join(comps, '/')
  {
    hide Normalize, Split, Join, PlainName;
    var rel := Join(comps, '/');
    NamesHaveNoSlash(comps);
    assert "/" + rel == [] + ['/'] + rel;
    SplitPrefix([], rel, '/');
    assert "a" == ['a'];
    APlainName();
    if comps == [] {
      JoinNone('/');
      SplitPiece([], '/');
      assert Split("/" + rel, '/') == [""] + [""];
      NormalizeDots([], "a", [""]);
      NormalizeDots([], "a", []);
      assert [] + [""] + [""] == [""] + [""] && [] + [""] == [""] && [] + [""] + [] == [""];
      NormalizePlain([]);
      assert [] + [] == comps;
    } else {
      SplitJoin(comps, '/');
      NormalizeDots([], "a", comps);
      NormalizePlain(comps);
      assert [] + [""] + comps == [[]] + comps && [] + comps == comps;
    }
  }

  lemma NamesHaveNoSlash(comps: seq<string>)
    requires forall c :: c in comps ==> PlainName(c)
    ensures forall c :: c in comps ==> '/' !in c
  {
  }

  lemma APlainName()
    ensures PlainName("a")
  {
  }

  lemma JoinNone(sep: char)
    ensures Join([], sep) == []
  {
  }

  predicate HasPrefix(s: string, prefix: string) {
    prefix <= s
  }

  predicate HasSuffix(s: string, suffix: string) {
    |suffix| <= |s| && s[|s| - |suffix|..] == suffix
  }

  function Digit(n: nat): char
    requires n < 10
  {
    ['0', '1', '2', '3', '4', '5', '6', '7', '8', '9'][n]
  }

  /** strconv.FormatUint(n, 10). */
  function Decimal(n: nat): (s: string)
    ensures s != [] && '/' !in s
  {
    if n < 10 then [Digit(n)] else Decimal(n / 10) + [Digit(n % 10)]
  }

  /** The number a numeral stands for, digit by digit. */
  function Value(s: string): int {
    if s == [] then 0 else 10 * Value(s[..|s| - 1]) + (s[|s| - 1] as int - '0' as int)
  }

  lemma {:induction false} DecimalValue(n: nat)
    ensures Value(Decimal(n)) == n && forall c :: c in Decimal(n) ==> '0' <= c <= '9'
  {
    var s := Decimal(n);
    if n < 10 {
      assert s[..0] == [];
    } else {
      DecimalValue(n / 10);
      assert s[..|s| - 1] == Decimal(n / 10) && s[|s| - 1] == Digit(n % 10);
    }
  }

  /** Different numbers have different numerals. */
  lemma DecimalInjective(m: nat, n: nat)
    requires Decimal(m) == Decimal(n)
    ensures m == n
  {
    DecimalValue(m);
    DecimalValue(n);
  }
}
