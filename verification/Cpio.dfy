/** The newc cpio writer of mage/download/download.go, against a reader of the format.

    The reader follows the Linux kernel document "initramfs buffer format": entries are
    aligned to four bytes from the start of the archive, a header is the magic number and
    thirteen fields of eight hexadecimal digits, the name ends in a zero byte, and an entry
    named TRAILER!!! ends the archive. */
module Cpio {
  import opened Text

  type Byte = b: int | 0 <= b < 256
  type Bytes = seq<Byte>

  const MAGIC: Bytes := [0x30, 0x37, 0x30, 0x37, 0x30, 0x31]
  const TRAILER: Bytes := [0x54, 0x52, 0x41, 0x49, 0x4C, 0x45, 0x52, 0x21, 0x21, 0x21]
  const FIELDS: nat := 13
  const HEADER: nat := 110
  const LIMIT: nat := 0x1_0000_0000

  datatype Entry = Entry(name: Bytes, mode: nat, body: Bytes)

  // ---- Hexadecimal ----

  function HexDigit(n: nat): Byte
    requires n < 16
  {
    if n < 10 then 0x30 + n else 0x41 + n - 10
  }

  function HexValue(b: Byte): Option<nat> {
    if 0x30 <= b <= 0x39 then Some(b - 0x30)
    else if 0x41 <= b <= 0x46 then Some(b - 0x41 + 10)
    else if 0x61 <= b <= 0x66 then Some(b - 0x61 + 10)
    else None
  }

  function Pow16(w: nat): nat {
    if w == 0 then 1 else 16 * Pow16(w - 1)
  }

  /** The low `w` hexadecimal digits of `n`. */
  function HexLow(n: nat, w: nat): (s: Bytes)
    ensures |s| == w
  {
    if w == 0 then [] else HexLow(n / 16, w - 1) + [HexDigit(n % 16)]
  }

  /** The verb %08X: at least eight digits, more for a number that does not fit. */
  function Hex08(n: nat): Bytes {
    if n < LIMIT then HexLow(n, 8) else Hex08(n / 16) + [HexDigit(n % 16)]
  }

  function ParseHex(s: Bytes): Option<nat> {
    if s == [] then Some(0)
    else
      var init, d := ParseHex(s[..|s| - 1]), HexValue(s[|s| - 1]);
      if init.None? || d.None? then None else Some(16 * init.value + d.value)
  }

  lemma {:induction false} ParseHexLow(n: nat, w: nat)
    requires n < Pow16(w)
    ensures ParseHex(HexLow(n, w)) == Some(n)
  {
    if w > 0 {
      ParseHexLow(n / 16, w - 1);
      var s := HexLow(n, w);
      assert s[..|s| - 1] == HexLow(n / 16, w - 1) && s[|s| - 1] == HexDigit(n % 16);
    }
  }

  lemma EightDigits()
    ensures Pow16(8) == LIMIT
  {
    assert Pow16(2) == 256 && Pow16(4) == 65536;
    assert Pow16(6) == 16 * Pow16(5) && Pow16(5) == 16 * Pow16(4);
  }

  // ---- The writer ----

  function HexAll(fields: seq<nat>): Bytes {
    if fields == [] then [] else HexAll(fields[..|fields| - 1]) + Hex08(fields[|fields| - 1])
  }

  /** ino, mode, uid, gid, nlink, mtime, filesize, four device numbers, namesize, check. */
  function HeaderFields(mode: nat, fileSize: nat, nameSize: nat): seq<nat> {
    [0, mode, 0, 0, 1, 0, fileSize, 0, 0, 0, 0, nameSize, 0]
  }

  function Zeros(n: nat): (z: Bytes)
    ensures |z| == n && forall i :: 0 <= i < n ==> z[i] == 0
  {
    seq(n, i => 0)
  }

  function Padding(n: nat): nat {
    (4 - n % 4) % 4
  }

  function EntryBytes(e: Entry): Bytes {
    var name := e.name + [0];
    MAGIC + HexAll(HeaderFields(e.mode, |e.body|, |name|)) + name + Zeros(Padding(HEADER + |name|))
    + e.body + Zeros(Padding(|e.body|))
  }

  /** An io.Writer that may fail after writing part of what it was given. */
  class Writer {
    var out: Bytes
    /** No write fails. */
    const sound: bool

    constructor (sound: bool)
      ensures out == [] && this.sound == sound
    {
      this.out, this.sound := [], sound;
    }

    method Write(bytes: Bytes) returns (ok: bool)
      modifies this
      ensures ok ==> out == old(out) + bytes
      ensures sound ==> ok
      ensures !ok ==> exists n :: 0 <= n <= |bytes| && out == old(out) + bytes[..n]
    {
      ok := *;
      var n: int := *;
      if !ok && !sound && 0 <= n <= |bytes| {
        out := out + bytes[..n];
      } else {
        ok := true;
        out := out + bytes;
      }
    }
  }

  /** Writing all of `text` in pieces: either everything is out or a prefix of it. */
  ghost predicate Partly(before: Bytes, after: Bytes, text: Bytes) {
    exists n :: 0 <= n <= |text| && after == before + text[..n]
  }

  lemma PartlyLater(before: Bytes, after: Bytes, done: Bytes, piece: Bytes, rest: Bytes)
    requires Partly(before + done, after, piece)
    ensures Partly(before, after, done + piece + rest)
  {
    var n :| 0 <= n <= |piece| && after == before + done + piece[..n];
    assert (done + piece + rest)[..|done| + n] == done + piece[..n];
    assert after == before + (done + piece + rest)[..|done| + n];
  }

  /** Write one piece of a text of which `done` is out and `rest` still to come. */
  method WritePiece(w: Writer, piece: Bytes, ghost before: Bytes, ghost done: Bytes,
      ghost rest: Bytes) returns (ok: bool)
    requires w.out == before + done
    modifies w
    ensures ok ==> w.out == before + (done + piece)
    ensures w.sound ==> ok
    ensures !ok ==> Partly(before, w.out, done + piece + rest)
  {
    ok := w.Write(piece);
    if ok {
      assert before + done + piece == before + (done + piece);
    } else {
      PartlyLater(before, w.out, done, piece, rest);
    }
  }

  /** writeCPIOEntry: header, name, padding, body and padding, step by step. */
  method WriteCpioEntry(w: Writer, name: Bytes, mode: nat, data: Bytes, link: Bytes) returns (ok: bool)
    modifies w
    ensures var text := EntryBytes(Entry(name, mode, if link != [] then link else data));
            if ok then w.out == old(w.out) + text else Partly(old(w.out), w.out, text)
    ensures w.sound ==> ok
  {
    hide HexAll, Partly;
    var body := if link != [] then link else data;
    var nameBytes := name + [0];
    var hdr := MAGIC + HexAll(HeaderFields(mode, |body|, |nameBytes|));
    var pad1, pad2 := Padding(HEADER + |nameBytes|), Padding(|body|);
    ghost var before, z1, z2 := w.out, Zeros(pad1), Zeros(pad2);
    ghost var text := hdr + nameBytes + z1 + body + z2;
    assert before + [] == before && [] + hdr == hdr;
    assert hdr + (nameBytes + z1 + body + z2) == text;
    ok := WritePiece(w, hdr, before, [], nameBytes + z1 + body + z2);
    if !ok { return; }
    assert hdr + nameBytes + (z1 + body + z2) == text;
    ok := WritePiece(w, nameBytes, before, hdr, z1 + body + z2);
    if !ok { return; }
    ghost var done := hdr + nameBytes;
    if pad1 > 0 {
      assert done + z1 + (body + z2) == text;
      ok := WritePiece(w, Zeros(pad1), before, done, body + z2);
      if !ok { return; }
    } else {
      assert done + z1 == done;
    }
    done := done + z1;
    if |body| > 0 {
      ok := WritePiece(w, body, before, done, z2);
      if !ok { return; }
      if pad2 > 0 {
        assert text + [] == text;
        ok := WritePiece(w, Zeros(pad2), before, done + body, []);
        if !ok { return; }
      } else {
        assert text == done + body;
      }
    } else {
      assert text == done;
    }
  }

  // ---- The reader ----

  function Align4(n: nat): nat {
    n + Padding(n)
  }

  /** `n` fields of eight hexadecimal digits. */
  function ParseAll(s: Bytes, n: nat): Option<seq<nat>>
    requires |s| == 8 * n
  {
    if n == 0 then Some([])
    else
      var init, last := ParseAll(s[..8 * (n - 1)], n - 1), ParseHex(s[8 * (n - 1)..]);
      if init.None? || last.None? then None else Some(init.value + [last.value])
  }

  /** One entry at the first aligned offset from `off`, and the offset after it. */
  function ReadEntry(a: Bytes, off: nat): (r: Option<(Entry, nat)>)
    ensures r.Some? ==> off + HEADER < r.value.1 <= |a|
  {
    var start := Align4(off);
    if start + HEADER > |a| || a[start..start + 6] != [0x30, 0x37, 0x30, 0x37, 0x30, 0x31] then None
    else
      var fields := ParseAll(a[start + 6..start + HEADER], FIELDS);
      FieldsLength(a[start + 6..start + HEADER], FIELDS);
      if fields.None? then None else ReadBody(a, start, fields.value)
  }

  lemma {:induction false} FieldsLength(s: Bytes, n: nat)
    requires |s| == 8 * n
    ensures ParseAll(s, n).Some? ==> |ParseAll(s, n).value| == n
  {
    if n > 0 {
      FieldsLength(s[..8 * (n - 1)], n - 1);
    }
  }

  function ReadBody(a: Bytes, start: nat, fields: seq<nat>): (r: Option<(Entry, nat)>)
    requires |fields| == FIELDS
    ensures r.Some? ==> start + HEADER < r.value.1 <= |a|
  {
    var mode, fileSize, nameSize := fields[1], fields[6], fields[11];
    var nameEnd := start + HEADER + nameSize;
    var data := Align4(nameEnd);
    if nameSize == 0 || data + fileSize > |a| || a[nameEnd - 1] != 0 then None
    else
      var name := a[start + HEADER..nameEnd - 1];
      if 0 in name then None else Some((Entry(name, mode, a[data..data + fileSize]), data + fileSize))
  }

  /** The entries up to the trailer. */
  function ReadArchive(a: Bytes, off: nat): Option<seq<Entry>>
    decreases |a| - off
  {
    var r := ReadEntry(a, off);
    if r.None? then None
    else if r.value.0.name == [0x54, 0x52, 0x41, 0x49, 0x4C, 0x45, 0x52, 0x21, 0x21, 0x21] then Some([])
    else
      var rest := ReadArchive(a, r.value.1);
      if rest.None? then None else Some([r.value.0] + rest.value)
  }

  // ---- The round trip ----

  /** What the format can hold: no zero byte in a name, and sizes and mode of 32 bits. */
  predicate Fits(e: Entry) {
    0 !in e.name && e.mode < LIMIT && |e.body| < LIMIT && |e.name| + 1 < LIMIT
  }

  lemma Hex08Parses(n: nat, w: nat)
    requires n < LIMIT && w == 8
    ensures |Hex08(n)| == w && ParseHex(Hex08(n)) == Some(n)
  {
    EightDigits();
    ParseHexLow(n, w);
  }

  lemma {:induction false} HexAllParses(fields: seq<nat>)
    requires forall f :: f in fields ==> f < LIMIT
    ensures |HexAll(fields)| == 8 * |fields| && ParseAll(HexAll(fields), |fields|) == Some(fields)
  {
    hide Hex08, ParseHex;
    if fields != [] {
      var init, last := fields[..|fields| - 1], fields[|fields| - 1];
      assert last in fields && forall f :: f in init ==> f in fields;
      HexAllParses(init);
      Hex08Parses(last, 8);
      var s := HexAll(fields);
      assert s[..8 * (|fields| - 1)] == HexAll(init) && s[8 * (|fields| - 1)..] == Hex08(last);
      assert fields == init + [last];
    }
  }

  lemma Aligned(n: nat)
    ensures Align4(n) % 4 == 0 && n <= Align4(n) < n + 4
  {
  }

  lemma AlignedShift(base: nat, n: nat)
    requires base % 4 == 0
    ensures Align4(base + n) == base + Align4(n)
  {
    assert (base + n) % 4 == n % 4;
  }

  /** Every entry is a multiple of four bytes long, so alignment holds across an archive. */
  lemma EntryAligned(e: Entry)
    requires Fits(e)
    ensures |EntryBytes(e)| == Align4(HEADER + |e.name| + 1) + Align4(|e.body|)
    ensures |EntryBytes(e)| % 4 == 0
  {
    hide HexAll, ParseAll, EntryBytes, HeaderFields, Align4;
    var fields := HeaderFields(e.mode, |e.body|, |e.name| + 1);
    FieldsFit(e, fields);
    HexAllParses(fields);
    EntryLength(e);
    Aligned(HEADER + |e.name| + 1);
    Aligned(|e.body|);
  }

  lemma EntryLength(e: Entry)
    requires |HexAll(HeaderFields(e.mode, |e.body|, |e.name| + 1))| == 8 * FIELDS
    ensures |EntryBytes(e)| == Align4(HEADER + |e.name| + 1) + Align4(|e.body|)
  {
    hide HexAll, Padding;
  }

  lemma Left(l: Bytes, r: Bytes, i: nat, j: nat)
    requires i <= j <= |l|
    ensures (l + r)[i..j] == l[i..j]
  {
  }

  lemma Within(a: Bytes, pre: Bytes, x: Bytes, post: Bytes, i: nat, j: nat)
    requires a == pre + x + post && i <= j <= |x|
    ensures |pre| + j <= |a| && a[|pre| + i..|pre| + j] == x[i..j]
  {
  }

  /** Where the parts of an entry are. */
  lemma Layout(a: Bytes, pre: Bytes, magic: Bytes, hex: Bytes, name: Bytes, z1: Bytes, body: Bytes, z2: Bytes,
      post: Bytes)
    requires a == pre + (magic + hex + (name + [0]) + z1 + body + z2) + post
    ensures var h := |pre| + |magic|;
            var n := h + |hex|;
            var d := n + |name| + 1 + |z1|;
            && d + |body| <= |a|
            && a[|pre|..h] == magic && a[h..n] == hex && a[n..n + |name|] == name && a[n + |name|] == 0
            && a[d..d + |body|] == body
  {
    var h := |magic|;
    var n := h + |hex|;
    var d := n + |name| + 1 + |z1|;
    var x1 := magic + hex;
    var x2 := x1 + (name + [0]);
    var x3 := x2 + z1;
    var x4 := x3 + body;
    var x := x4 + z2;
    forall i: nat, j: nat | i <= j <= |x2|
      ensures a[|pre| + i..|pre| + j] == x2[i..j]
    {
      Within(a, pre, x, post, i, j);
      Left(x4, z2, i, j);
      Left(x3, body, i, j);
      Left(x2, z1, i, j);
    }
    Within(a, pre, x, post, d, d + |body|);
    Left(x4, z2, d, d + |body|);
    assert x4[d..d + |body|] == body;
    assert a[|pre| + 0..|pre| + h] == x2[0..h] == magic;
    assert a[|pre| + h..|pre| + n] == x2[h..n] == hex;
    assert a[|pre| + n..|pre| + (n + |name|)] == x2[n..n + |name|] == name;
    assert a[|pre| + n + |name|] == a[|pre| + (n + |name|)..|pre| + (n + |name| + 1)][0] == 0;
  }

  /** Wherever an entry stands at an aligned offset, the reader gets it back. */
  lemma EntryReads(a: Bytes, off: nat, pre: Bytes, e: Entry, post: Bytes)
    requires Fits(e) && |pre| % 4 == 0 && Align4(off) == |pre| && a == pre + EntryBytes(e) + post
    ensures ReadEntry(a, off) == Some((e, |pre| + Align4(HEADER + |e.name| + 1) + |e.body|))
  {
    hide HexAll, ParseAll, ReadBody, Padding, Fits, HeaderFields;
    var fields := HeaderFields(e.mode, |e.body|, |e.name| + 1);
    FieldsFit(e, fields);
    HexAllParses(fields);
    var z1, z2 := Zeros(Padding(HEADER + |e.name| + 1)), Zeros(Padding(|e.body|));
    Layout(a, pre, MAGIC, HexAll(fields), e.name, z1, e.body, z2, post);
    BodyReads(a, |pre|, fields, e);
  }

  /** The header of an entry, field by field: inode 0, its mode, owned by root, one link, no
      time, the size of its body, no devices, the size of its name with the zero byte, and a
      check sum of 0 that this format does not use. */
  lemma HeaderReads(a: Bytes, pre: Bytes, e: Entry, post: Bytes)
    requires Fits(e) && a == pre + EntryBytes(e) + post
    ensures |pre| + 110 <= |a| && a[|pre|..|pre| + 6] == [0x30, 0x37, 0x30, 0x37, 0x30, 0x31]
    ensures ParseAll(a[|pre| + 6..|pre| + 110], 13)
            == Some([0, e.mode, 0, 0, 1, 0, |e.body|, 0, 0, 0, 0, |e.name| + 1, 0])
  {
    hide HexAll, ParseAll, Padding, Fits;
    var fields := HeaderFields(e.mode, |e.body|, |e.name| + 1);
    FieldsFit(e, fields);
    HexAllParses(fields);
    var z1, z2 := Zeros(Padding(HEADER + |e.name| + 1)), Zeros(Padding(|e.body|));
    Layout(a, pre, MAGIC, HexAll(fields), e.name, z1, e.body, z2, post);
  }

  lemma FieldsFit(e: Entry, fields: seq<nat>)
    requires Fits(e) && fields == HeaderFields(e.mode, |e.body|, |e.name| + 1)
    ensures |fields| == FIELDS && forall f :: f in fields ==> f < LIMIT
  {
  }

  lemma BodyReads(a: Bytes, start: nat, fields: seq<nat>, e: Entry)
    requires Fits(e) && start % 4 == 0 && fields == HeaderFields(e.mode, |e.body|, |e.name| + 1)
    requires var nameEnd := start + HEADER + |e.name| + 1;
             var data := start + Align4(HEADER + |e.name| + 1);
             && nameEnd <= data && data + |e.body| <= |a|
             && a[start + HEADER..nameEnd - 1] == e.name && a[nameEnd - 1] == 0
             && a[data..data + |e.body|] == e.body
    ensures ReadBody(a, start, fields) == Some((e, start + Align4(HEADER + |e.name| + 1) + |e.body|))
  {
    AlignedShift(start, HEADER + |e.name| + 1);
  }

  function Archive(entries: seq<Entry>): Bytes {
    if entries == [] then EntryBytes(Entry(TRAILER, 0, [])) else EntryBytes(entries[0]) + Archive(entries[1..])
  }

  /** A file of the image; a symlink has a target in place of data. */
  datatype File = File(name: Bytes, mode: nat, data: Bytes, link: Bytes) {
    function ToEntry(): Entry { Entry(name, mode, if link != [] then link else data) }
  }

  function Entries(files: seq<File>): seq<Entry> {
    seq(|files|, i requires 0 <= i < |files| => files[i].ToEntry())
  }

  /** The loop over the files of an image, and the trailer. */
  method WriteArchive(w: Writer, files: seq<File>) returns (ok: bool)
    modifies w
    ensures var text := Archive(Entries(files));
            if ok then w.out == old(w.out) + text else Partly(old(w.out), w.out, text)
    ensures w.sound ==> ok
  {
    hide EntryBytes;
    ghost var all := Archive(Entries(files));
    assert files[0..] == files;
    for i := 0 to |files|
      invariant w.out + Archive(Entries(files[i..])) == old(w.out) + all && old(w.out) <= w.out
    {
      var f := files[i];
      ghost var out, text, rest := w.out, EntryBytes(f.ToEntry()), Archive(Entries(files[i + 1..]));
      assert Entries(files[i..])[1..] == Entries(files[i + 1..]);
      ok := WriteCpioEntry(w, f.name, f.mode, f.data, f.link);
      if !ok {
        PartlyOfAll(old(w.out), all, out, text, rest, w.out);
        return;
      }
      assert out + text + rest == out + (text + rest);
    }
    assert Entries(files[|files|..]) == [];
    ghost var out, text := w.out, EntryBytes(Entry(TRAILER, 0, []));
    ok := WriteCpioEntry(w, TRAILER, 0, [], []);
    if !ok {
      assert text + [] == text;
      PartlyOfAll(old(w.out), all, out, text, [], w.out);
    }
  }

  lemma PartlyOfAll(before: Bytes, all: Bytes, out: Bytes, text: Bytes, rest: Bytes, after: Bytes)
    requires before <= out && out + (text + rest) == before + all && Partly(out, after, text)
    ensures Partly(before, after, all)
  {
    var n :| 0 <= n <= |text| && after == out + text[..n];
    var k := |out| - |before| + n;
    assert after == (out + (text + rest))[..|out| + n];
    assert after == (before + all)[..|before| + k] == before + all[..k];
  }

  /** The entries before the first one named like the trailer. */
  function BeforeTrailer(entries: seq<Entry>): seq<Entry> {
    if entries == [] || entries[0].name == TRAILER then [] else [entries[0]] + BeforeTrailer(entries[1..])
  }

  lemma {:induction false} ArchiveReads(a: Bytes, off: nat, pre: Bytes, entries: seq<Entry>)
    requires forall e :: e in entries ==> Fits(e)
    requires |pre| % 4 == 0 && Align4(off) == |pre| && a == pre + Archive(entries)
    ensures ReadArchive(a, off) == Some(BeforeTrailer(entries))
    decreases |entries|
  {
    hide ReadEntry, EntryBytes, Padding;
    if entries == [] {
      var trailer := Entry(TRAILER, 0, []);
      assert a == pre + EntryBytes(trailer) + [];
      EntryReads(a, off, pre, trailer, []);
    } else {
      var e, rest := entries[0], Archive(entries[1..]);
      assert a == pre + EntryBytes(e) + rest;
      EntryReads(a, off, pre, e, rest);
      EntryAligned(e);
      var next := |pre| + Align4(HEADER + |e.name| + 1) + |e.body|;
      var pre' := pre + EntryBytes(e);
      NextAligned(|pre|, HEADER + |e.name| + 1, |e.body|);
      if e.name != TRAILER {
        assert forall x :: x in entries[1..] ==> x in entries;
        ArchiveReads(a, next, pre', entries[1..]);
      }
    }
  }

  lemma NextAligned(base: nat, n: nat, m: nat)
    requires base % 4 == 0
    ensures Align4(base + Align4(n) + m) == base + Align4(n) + Align4(m)
    ensures (base + Align4(n) + Align4(m)) % 4 == 0
  {
    Aligned(n);
    Aligned(m);
    hide Align4;
    assert (base + Align4(n)) % 4 == 0;
    AlignedShift(base + Align4(n), m);
  }

  predicate NoneNamedTrailer(entries: seq<Entry>) {
    forall e :: e in entries ==> e.name != TRAILER
  }

  lemma {:induction false} NoTrailer(entries: seq<Entry>)
    ensures BeforeTrailer(entries) == entries <==> NoneNamedTrailer(entries)
  {
    if entries != [] {
      NoTrailer(entries[1..]);
      assert entries == [entries[0]] + entries[1..];
    }
  }

  /** Writing an archive and reading it back gives every entry's name, mode and body, exactly
      when no entry bears the trailer's name; otherwise those before the first that does. */
  lemma RoundTrip(entries: seq<Entry>)
    requires forall e :: e in entries ==> Fits(e)
    ensures ReadArchive(Archive(entries), 0) == Some(BeforeTrailer(entries))
    ensures ReadArchive(Archive(entries), 0) == Some(entries) <==> NoneNamedTrailer(entries)
  {
    var a := Archive(entries);
    WholeArchive(a, 0, entries);
    NoTrailer(entries);
  }

  lemma WholeArchive(a: Bytes, off: nat, entries: seq<Entry>)
    requires (forall e :: e in entries ==> Fits(e)) && a == Archive(entries) && off == 0
    ensures ReadArchive(a, off) == Some(BeforeTrailer(entries))
  {
    hide Archive, ReadArchive, BeforeTrailer, Fits;
    assert a == a[..off] + a;
    ArchiveReads(a, off, a[..off], entries);
  }
}
