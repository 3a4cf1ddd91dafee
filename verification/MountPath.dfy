/** Reading mount points out of /proc/self/mountinfo (unescapeMountPath and the field
    splitting of mountPointsUnder, pkg/dind/bindstage_linux.go). */
module MountPath {
  import opened Text

  /** The kernel's escaping of one character of a mountinfo path, proc_pid_mountinfo(5). */
  function EscapeChar(c: char): string {
    if c == ' ' then "\\040"
    else if c == '\t' then "\\011"
    else if c == '\n' then "\\012"
    else if c == '\\' then "\\134"
    else [c]
  }

  function Escape(s: string): string {
    if s == [] then [] else EscapeChar(s[0]) + Escape(s[1..])
  }

  function OctalDigit(c: char): Option<nat> {
    if '0' <= c <= '7' then Some(c as int - '0' as int) else None
  }

  /** strconv.ParseUint(digits, 8, 8) on three characters: an octal number of one byte. */
  function ParseOctal(digits: string): (v: Option<nat>)
    requires |digits| == 3
    ensures v.Some? ==> v.value < 256
  {
    var a, b, c := OctalDigit(digits[0]), OctalDigit(digits[1]), OctalDigit(digits[2]);
    if a.None? || b.None? || c.None? then None
    else
      var n := 64 * a.value + 8 * b.value + c.value;
      if n < 256 then Some(n) else None
  }

  /** Decoding, one escape or one character at a time. */
  function Unescape(s: string): string {
    if s == [] then []
    else if s[0] == '\\' && |s| > 3 && ParseOctal(s[1..4]).Some?
    then [ParseOctal(s[1..4]).value as char] + Unescape(s[4..])
    else [s[0]] + Unescape(s[1..])
  }

  lemma EscapeCharDecodes(c: char)
    ensures var e := EscapeChar(c);
            || (e == [c] && c != '\\')
            || (|e| == 4 && e[0] == '\\' && ParseOctal(e[1..4]) == Some(c as int))
  {
  }

  /** Decoding undoes the kernel's escaping, for every path. */
  lemma {:induction false} UnescapeEscape(s: string)
    ensures Unescape(Escape(s)) == s
  {
    hide EscapeChar, ParseOctal;
    if s != [] {
      var head, tail := EscapeChar(s[0]), Escape(s[1..]);
      EscapeCharDecodes(s[0]);
      UnescapeEscape(s[1..]);
      assert Escape(s) == head + tail;
      if |head| == 4 {
        assert (head + tail)[1..4] == head[1..4] && (head + tail)[4..] == tail;
      } else {
        assert (head + tail)[1..] == tail;
      }
    }
  }

  lemma {:induction false} UnescapePlain(s: string)
    requires '\\' !in s
    ensures Unescape(s) == s
  {
    if s != [] {
      UnescapePlain(s[1..]);
    }
  }

  /** Only a backslash with three octal digits that make a byte is an escape; any other
      backslash stands for itself. */
  lemma UnescapeBackslash(a: char, b: char, c: char, rest: string)
    ensures var octal := '0' <= a <= '7' && '0' <= b <= '7' && '0' <= c <= '7';
            var n := 64 * (a as int - 48) + 8 * (b as int - 48) + (c as int - 48);
            Unescape(['\\', a, b, c] + rest)
            == if octal && n < 256 then [n as char] + Unescape(rest) else ['\\'] + Unescape([a, b, c] + rest)
    ensures Unescape(['\\']) == ['\\']
    ensures Unescape(['\\', a]) == ['\\'] + Unescape([a]) && Unescape(['\\', a, b]) == ['\\'] + Unescape([a, b])
  {
    var s := ['\\', a, b, c] + rest;
    assert s[1..4] == [a, b, c] && s[4..] == rest && s[1..] == [a, b, c] + rest;
    assert ['\\'][1..] == [] && ['\\', a][1..] == [a] && ['\\', a, b][1..] == [a, b];
  }

  lemma UnescapeAt(s: string, i: nat)
    requires i < |s|
    ensures Unescape(s[i..]) ==
              if s[i] == '\\' && i + 3 < |s| && ParseOctal(s[i + 1..i + 4]).Some?
              then [ParseOctal(s[i + 1..i + 4]).value as char] + Unescape(s[i + 4..])
              else [s[i]] + Unescape(s[i + 1..])
  {
    hide ParseOctal;
    assert s[i..][1..] == s[i + 1..];
    if i + 3 < |s| {
      assert s[i..][1..4] == s[i + 1..i + 4] && s[i..][4..] == s[i + 4..];
    }
  }

  lemma AppendChar(a: string, c: char, b: string)
    ensures (a + [c]) + b == a + ([c] + b)
  {
  }

  /** unescapeMountPath: an index loop filling a buffer. */
  method UnescapeMountPath(s: string) returns (out: string)
    ensures out == Unescape(s)
  {
    if '\\' !in s {
      UnescapePlain(s);
      return s;
    }
    hide Unescape, ParseOctal;
    out := [];
    var i := 0;
    assert s[0..] == s && [] + Unescape(s) == Unescape(s);
    while i < |s|
      invariant i <= |s| && out + Unescape(s[i..]) == Unescape(s)
    {
      UnescapeAt(s, i);
      if s[i] == '\\' && i + 3 < |s| {
        var v := ParseOctal(s[i + 1..i + 4]);
        if v.Some? {
          AppendChar(out, v.value as char, Unescape(s[i + 4..]));
          out := out + [v.value as char];
          i := i + 4;
          continue;
        }
      }
      AppendChar(out, s[i], Unescape(s[i + 1..]));
      out := out + [s[i]];
      i := i + 1;
    }
    UnescapePlain(s[i..]);
  }

  // ---- Fields of a line ----

  /** unicode.IsSpace. */
  predicate Space(c: char) {
    var n := c as int;
    || 9 <= n <= 13 || n == 32 || n == 0x85 || n == 0xA0 || n == 0x1680 || 0x2000 <= n <= 0x200a
    || n == 0x2028 || n == 0x2029 || n == 0x202f || n == 0x205f || n == 0x3000
  }

  /** White space, character by character: the ASCII controls from tab to carriage return, space,
      next line, no-break space, and the space and line separators of Unicode. */
  lemma SpaceIs(c: char)
    ensures Space(c) <==> c in {'\t', '\n', '\U{0B}', '\U{0C}', '\r', ' ', '\U{85}', '\U{A0}', '\U{1680}',
                                '\U{2000}', '\U{2001}', '\U{2002}', '\U{2003}', '\U{2004}', '\U{2005}', '\U{2006}',
                                '\U{2007}', '\U{2008}', '\U{2009}', '\U{200A}', '\U{2028}', '\U{2029}', '\U{202F}',
                                '\U{205F}', '\U{3000}'}
  {
    var n := c as int;
    if Space(c) {
      assert c == n as char;
    }
  }

  /** The number of characters before the first white space. */
  function Run(s: string): (n: nat)
    ensures n <= |s|
    ensures forall i :: 0 <= i < n ==> !Space(s[i])
    ensures n < |s| ==> Space(s[n])
  {
    if s == [] || Space(s[0]) then 0 else 1 + Run(s[1..])
  }

  /** strings.Fields: the maximal runs without white space. */
  function Fields(s: string): seq<string>
    decreases |s|
  {
    if s == [] then []
    else if Space(s[0]) then Fields(s[1..])
    else [s[..Run(s)]] + Fields(s[Run(s)..])
  }

  predicate Word(s: string) {
    s != [] && forall c :: c in s ==> !Space(c)
  }

  lemma FieldsWord(s: string)
    requires Word(s)
    ensures Fields(s) == [s]
  {
    assert forall i :: 0 <= i < |s| ==> s[i] in s;
    assert Run(s) == |s| && s[..|s|] == s && s[|s|..] == [];
  }

  lemma {:induction false} RunAppend(a: string, b: string)
    requires b != [] && Space(b[0])
    ensures Run(a + b) == Run(a)
  {
    if a == [] {
      assert a + b == b;
    } else if !Space(a[0]) {
      RunAppend(a[1..], b);
      assert (a + b)[1..] == a[1..] + b;
    }
  }

  /** White space between two texts keeps their fields apart. */
  lemma {:induction false} FieldsAppend(a: string, b: string)
    requires b != [] && Space(b[0])
    ensures Fields(a + b) == Fields(a) + Fields(b)
    decreases |a|
  {
    if a == [] {
      assert a + b == b;
    } else if Space(a[0]) {
      assert (a + b)[1..] == a[1..] + b;
      FieldsAppend(a[1..], b);
    } else {
      RunAppend(a, b);
      var n := Run(a);
      assert (a + b)[..n] == a[..n] && (a + b)[n..] == a[n..] + b;
      FieldsAppend(a[n..], b);
    }
  }

  /** A mountinfo line: mount id, parent id and device, the path of the mount's root inside
      its own file system, the mount point, and the rest. */
  datatype Line = Line(id: string, parent: string, dev: string, root: string, point: string, rest: string)

  function LineText(l: Line): string {
    l.id + (" " + l.parent) + (" " + l.dev) + (" " + Escape(l.root)) + (" " + Escape(l.point)) + (" " + l.rest)
  }

  predicate ValidLine(l: Line) {
    Word(l.id) && Word(l.parent) && Word(l.dev) && IsPath(l.root) && IsPath(l.point) && Fields(l.rest) != []
  }

  predicate IsPath(s: string) {
    HasPrefix(s, "/")
  }

  lemma SpaceBefore(s: string)
    ensures Fields(" " + s) == Fields(s)
  {
    assert (" " + s)[1..] == s;
  }

  /** What strings.Fields finds in a line: the three words, then whatever the two paths
      fall apart into. */
  lemma LineFields(l: Line)
    requires ValidLine(l)
    ensures Fields(LineText(l)) ==
              [l.id, l.parent, l.dev] + Fields(Escape(l.root)) + Fields(Escape(l.point)) + Fields(l.rest)
  {
    hide Fields, Escape, Word;
    var a := l.id;
    FieldsWord(l.id); FieldsWord(l.parent); FieldsWord(l.dev);
    SpaceBefore(l.parent); SpaceBefore(l.dev); SpaceBefore(Escape(l.root)); SpaceBefore(Escape(l.point));
      SpaceBefore(l.rest);
    FieldsAppend(a, " " + l.parent);
    a := a + (" " + l.parent);
    FieldsAppend(a, " " + l.dev);
    a := a + (" " + l.dev);
    FieldsAppend(a, " " + Escape(l.root));
    a := a + (" " + Escape(l.root));
    FieldsAppend(a, " " + Escape(l.point));
    a := a + (" " + Escape(l.point));
    FieldsAppend(a, " " + l.rest);
  }

  /** White space the kernel does not escape: it counts as a field separator all the same. */
  predicate Odd(c: char) {
    Space(c) && c != ' ' && c != '\t' && c != '\n'
  }

  predicate Clean(s: string) {
    forall c :: c in s ==> !Odd(c)
  }

  lemma {:induction false} EscapeClean(s: string)
    requires Clean(s)
    ensures forall c :: c in Escape(s) ==> !Space(c)
  {
    if s != [] {
      EscapeClean(s[1..]);
      assert s[0] in s;
      assert forall c :: c in EscapeChar(s[0]) ==> !Space(c);
    }
  }

  lemma {:induction false} EscapeAppend(a: string, b: string)
    ensures Escape(a + b) == Escape(a) + Escape(b)
  {
    hide EscapeChar;
    if a == [] {
      assert a + b == b;
    } else {
      EscapeAppend(a[1..], b);
      assert (a + b)[1..] == a[1..] + b && (a + b)[0] == a[0];
      assert EscapeChar(a[0]) + (Escape(a[1..]) + Escape(b)) == (EscapeChar(a[0]) + Escape(a[1..])) + Escape(b);
    }
  }

  /** The part of a path before its first odd white space. */
  function CleanPrefix(s: string): (p: string)
    ensures p <= s && Clean(p)
    ensures |p| < |s| ==> Odd(s[|p|])
  {
    if s == [] || Odd(s[0]) then [] else [s[0]] + CleanPrefix(s[1..])
  }

  /** The first field of an escaped path decodes to the path up to its first odd white space. */
  lemma FirstField(s: string)
    requires IsPath(s)
    ensures |Fields(Escape(s))| > 0
    ensures Unescape(Fields(Escape(s))[0]) == CleanPrefix(s)
    ensures Clean(s) ==> |Fields(Escape(s))| == 1 && CleanPrefix(s) == s
  {
    var p := CleanPrefix(s);
    EscapeClean(p);
    UnescapeEscape(p);
    assert p != [] && Escape(p) != [] by { assert p[0] == s[0]; }
    FieldsWord(Escape(p));
    if |p| == |s| {
      assert p == s;
    } else {
      assert s == p + s[|p|..] && s[|p|] in s;
      EscapeAppend(p, s[|p|..]);
      assert Escape(s[|p|..])[0] == s[|p|];
      FieldsAppend(Escape(p), Escape(s[|p|..]));
    }
  }

  /** What mountPointsUnder takes for the mount point of a line: its fifth field, decoded. */
  function ParsedPoint(l: Line): string
    requires ValidLine(l)
  {
    LineFields(l);
    FirstField(l.root);
    FirstField(l.point);
    Unescape(Fields(LineText(l))[4])
  }

  /** The mount point itself, cut at its first odd white space, if the source's path is one
      field; otherwise the second field that path falls apart into. */
  lemma ParsedPointIs(l: Line)
    requires ValidLine(l)
    ensures |Fields(Escape(l.root))| > 0
    ensures var parts := Fields(Escape(l.root));
            ParsedPoint(l) == if |parts| == 1 then CleanPrefix(l.point) else Unescape(parts[1])
    ensures Clean(l.root) ==> |Fields(Escape(l.root))| == 1
    ensures Clean(l.point) ==> CleanPrefix(l.point) == l.point
  {
    hide Fields, Escape, Unescape, LineText, CleanPrefix, Clean;
    LineFields(l);
    FirstField(l.root);
    FirstField(l.point);
  }
}
