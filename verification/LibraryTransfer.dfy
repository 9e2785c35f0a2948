/** What a debugger gets from get_libraries: the whole document from its chunks, and the list of libraries from
    the document. */
module LibraryTransfer {
  import opened Words
  import opened StreamWriter
  import opened Libraries

  // ---- Chunks

  /** The text gathered by calls with buffers of the given sizes, each from where the last one ended, up to
      the first that returns nothing. */
  function Transfer(doc: string, offset: nat, rooms: seq<pos>): (string, bool)
    decreases |rooms|
  {
    if rooms == [] then ("", false)
    else
      var chunk := Window(doc, Truncated(offset), rooms[0]);
      if chunk == "" then ("", true)
      else
        var (rest, done) := Transfer(doc, offset + |chunk|, rooms[1..]);
        (chunk + rest, done)
  }

  /** What n calls give of the document from the offset on: the next part of it, the rest of it once a call has
      returned nothing, and with enough calls it comes to that. */
  predicate Gathered(doc: string, offset: nat, n: nat, text: string, done: bool) {
    && offset + |text| <= |doc| && text == doc[offset..offset + |text|]
    && (done ==> offset + |text| == |doc|)
    && (n > |doc| - offset ==> done)
  }

  lemma {:induction false} TransferFrom(doc: string, offset: nat, rooms: seq<pos>) returns (text: string, done: bool)
    requires offset <= |doc| < TWO_TO_THE_32
    ensures Transfer(doc, offset, rooms) == (text, done)
    ensures Gathered(doc, offset, |rooms|, text, done)
    decreases |rooms|
  {
    if rooms == [] {
      text, done := "", false;
    } else if offset == |doc| {
      TransferEnds(doc, rooms);
      text, done := "", true;
    } else {
      var chunk := ChunkOf(doc, offset, rooms[0]);
      text, done := TransferFrom(doc, offset + |chunk|, rooms[1..]);
      TransferUnfolds(doc, offset, rooms, chunk, text, done);
      OneMore(doc, offset, |rooms|, chunk, text, done);
      text := chunk + text;
    }
  }

  lemma TransferEnds(doc: string, rooms: seq<pos>)
    requires |doc| < TWO_TO_THE_32 && rooms != []
    ensures Transfer(doc, |doc|, rooms) == ("", true)
  {
  }

  lemma TransferUnfolds(doc: string, offset: nat, rooms: seq<pos>, chunk: string, text: string, done: bool)
    requires rooms != [] && chunk == Window(doc, Truncated(offset), rooms[0]) && chunk != ""
    requires Transfer(doc, offset + |chunk|, rooms[1..]) == (text, done)
    ensures Transfer(doc, offset, rooms) == (chunk + text, done)
  {
  }

  lemma OneMore(doc: string, offset: nat, n: pos, chunk: string, text: string, done: bool)
    requires chunk != "" && offset + |chunk| <= |doc| && chunk == doc[offset..offset + |chunk|]
    requires Gathered(doc, offset + |chunk|, n - 1, text, done)
    ensures Gathered(doc, offset, n, chunk + text, done)
  {
    Adjacent(doc, offset, offset + |chunk|, offset + |chunk| + |text|);
  }

  lemma Adjacent(s: string, i: nat, j: nat, k: nat)
    requires i <= j <= k <= |s|
    ensures s[i..j] + s[j..k] == s[i..k]
  {
  }

  lemma ChunkOf(doc: string, offset: nat, room: nat) returns (chunk: string)
    requires offset < |doc| < TWO_TO_THE_32 && room > 0
    ensures chunk == Window(doc, Truncated(offset), room) && chunk != ""
    ensures offset + |chunk| <= |doc| && chunk == doc[offset..offset + |chunk|]
  {
    chunk := Window(doc, offset, room);
  }

  /** Whatever the sizes of the buffers, what the calls return is a prefix of the document; it is all of it
      once a call returns nothing, and that happens. */
  lemma ChunksReassemble(modules: seq<ModuleInfo>, rooms: seq<pos>)
    requires Listable(modules)
    ensures var doc := Document(Xml(), Listing(modules));
            var (text, done) := Transfer(doc, 0, rooms);
            && text <= doc
            && (done ==> text == doc)
            && (|rooms| > |doc| ==> done)
  {
    var doc := Document(Xml(), Listing(modules));
    DocumentFits(modules);
    var text, done := TransferFrom(doc, 0, rooms);
    assert doc[..|doc|] == doc;
  }

  // ---- The document is never longer than an offset can say

  /** What the kernel's tables can hold: 64 modules, each with a path of 256 bytes and four segments. */
  predicate Listable(modules: seq<ModuleInfo>) {
    |modules| <= 64 && forall info :: info in modules && info.Info? ==> |info.path| <= 256 && |info.segments| <= 4
  }

  lemma {:induction false} HexLength(n: nat, k: nat)
    requires k > 0 && n < Sixteens(k)
    ensures |Hex(n)| <= k
  {
    if n >= 16 {
      HexLength(n / 16, k - 1);
    }
  }

  function Sixteens(k: nat): nat {
    if k == 0 then 1 else 16 * Sixteens(k - 1)
  }

  lemma {:induction false} SegmentsLength(segments: seq<Segment>)
    ensures |SegmentsText(Xml(), Addresses(segments))| <= 31 * |segments|
  {
    if segments != [] && segments[0].size != 0 {
      assert Sixteens(8) == TWO_TO_THE_32;
      HexLength(segments[0].vaddr, 8);
      AddressesStep(Xml(), segments, 0);
      SegmentsLength(segments[1..]);
    }
  }

  lemma {:induction false} RestLength(modules: seq<ModuleInfo>)
    requires forall info :: info in modules && info.Info? ==> |info.path| <= 256 && |info.segments| <= 4
    ensures |Rest(Xml(), Listing(modules))| <= 15 + 410 * |modules|
  {
    if modules != [] {
      ListingStep(Xml(), modules, 0);
      if modules[0].Info? {
        SegmentsLength(modules[0].segments);
      }
      RestLength(modules[1..]);
    }
  }

  lemma DocumentFits(modules: seq<ModuleInfo>)
    requires Listable(modules)
    ensures |Document(Xml(), Listing(modules))| < TWO_TO_THE_32
  {
    RestLength(modules);
  }

  // ---- Reading the document back

  function Strip(prefix: string, s: string): Option<string> {
    if prefix <= s then Some(s[|prefix|..]) else None
  }

  /** What may stand for itself in an attribute value: by sections 2.2 and 2.3 of XML 1.0 no control character,
      quotation mark, `<` or `&`. */
  predicate Plain(c: char) {
    c >= ' ' && c != '"' && c != '<' && c != '&'
  }

  predicate AllPlain(s: string) {
    forall k :: 0 <= k < |s| ==> Plain(s[k])
  }

  /** An attribute value without references, up to its closing quotation mark, and what follows from there on.
      By section 3.3.3 of XML 1.0 tabs and line ends are read as spaces. */
  function AttValue(s: string): (r: Option<(string, string)>)
    ensures r.Some? ==> |r.value.1| <= |s|
  {
    if s == "" then None
    else if s[0] == '"' then Some(("", s))
    else if !Plain(s[0]) && s[0] !in "\t\n\r" then None
    else
      var rest := AttValue(s[1..]);
      if rest.None? then None else Some(([if Plain(s[0]) then s[0] else ' '] + rest.value.0, rest.value.1))
  }

  function DigitValue(c: char): nat {
    if '0' <= c <= '9' then c as int - '0' as int
    else if 'a' <= c <= 'f' then c as int - 'a' as int + 10
    else 0
  }

  function UnHex(s: string): nat {
    if s == "" then 0 else 16 * UnHex(s[..|s| - 1]) + DigitValue(s[|s| - 1])
  }

  predicate HexDigit(c: char) {
    '0' <= c <= '9' || 'a' <= c <= 'f'
  }

  /** A number as the library list gives it: 0x and at least one hexadecimal digit. */
  function ReadNumber(s: string): Option<nat> {
    if "0x" <= s && |s| > 2 && forall k :: 2 <= k < |s| ==> HexDigit(s[k]) then Some(UnHex(s[2..])) else None
  }

  /** Addresses are hexadecimal digits without leading zeros. */
  lemma {:induction false} HexIsPlain(n: nat)
    ensures forall k :: 0 <= k < |Hex(n)| ==> HexDigit(Hex(n)[k])
    ensures AllPlain(Hex(n)) && Hex(n) != "" && (n > 0 ==> Hex(n)[0] != '0')
  {
    DigitRead(n % 16);
    if n >= 16 {
      HexIsPlain(n / 16);
    }
  }

  lemma {:induction false} UnHexHex(n: nat)
    ensures UnHex(Hex(n)) == n
  {
    var d := Digit(n % 16);
    DigitRead(n % 16);
    if n >= 16 {
      UnHexHex(n / 16);
      UnHexDigit(Hex(n / 16), d);
    } else {
      UnHexDigit("", d);
    }
  }

  lemma UnHexDigit(s: string, c: char)
    ensures UnHex(s + [c]) == 16 * UnHex(s) + DigitValue(c)
  {
    assert (s + [c])[..|s|] == s;
  }

  lemma DigitRead(d: nat)
    requires d < 16
    ensures DigitValue(Digit(d)) == d && HexDigit(Digit(d)) && Plain(Digit(d)) && (d > 0 ==> Digit(d) != '0')
  {
  }

  /** The parts of a library list as its readers know them; numbers are the readers' own matter. */
  function ListMarkup(): Markup {
    Markup("<library-list version=\"1.0\">", "<library name=\"", "\">", "<segment address=\"", "\"/>",
           "</library>", "</library-list>")
  }

  /** Every address is written with the same mark in front of its digits. */
  function Marked(m: Markup): Markup {
    m.(segmentOpen := m.segmentOpen + "0x")
  }

  /** The segments at the front of the text, and what follows them. */
  function ReadSegments(m: Markup, s: string): (seq<nat>, string)
    requires Readable(m)
    decreases |s|
  {
    var inner := Strip(m.segmentOpen, s);
    if inner.None? then ([], s)
    else
      var value := AttValue(inner.value);
      if value.None? || ReadNumber(value.value.0).None? then ([], s)
      else
        var after := Strip(m.segmentEnd, value.value.1);
        if after.None? then ([], s)
        else
          var (addresses, rest) := ReadSegments(m, after.value);
          ([ReadNumber(value.value.0).value] + addresses, rest)
  }

  function ReadLibraries(m: Markup, s: string): Option<seq<Library>>
    requires Readable(m)
    decreases |s|
  {
    if s == m.listClose then Some([])
    else
      var inner := Strip(m.libraryOpen, s);
      if inner.None? then None
      else
        var path := AttValue(inner.value);
        if path.None? then None
        else
          var after := Strip(m.nameEnd, path.value.1);
          if after.None? then None
          else
            var (addresses, closing) := ReadSegments(m, after.value);
            var left := Strip(m.libraryClose, closing);
            if left.None? || |left.value| >= |s| then None
            else
              var libs := ReadLibraries(m, left.value);
              if libs.None? then None else Some([Library(path.value.0, addresses)] + libs.value)
  }

  function ReadDocument(m: Markup, s: string): Option<seq<Library>>
    requires Readable(m)
  {
    var inner := Strip(m.listOpen, s);
    if inner.None? then None else ReadLibraries(m, inner.value)
  }

  /** The parts can be told apart by their second bytes, and quotation marks end names and addresses. */
  predicate Readable(m: Markup) {
    && Differ(m.listClose, m.libraryOpen) && Differ(m.libraryClose, m.segmentOpen)
    && m.nameEnd != "" && m.nameEnd[0] == '"' && m.segmentEnd != "" && m.segmentEnd[0] == '"'
  }

  predicate Differ(a: string, b: string) {
    |a| > 1 && |b| > 1 && a[1] != b[1]
  }

  lemma StripBack(prefix: string, s: string)
    ensures Strip(prefix, prefix + s) == Some(s)
  {
  }

  lemma {:induction false} AttValueBack(x: string, mark: string, y: string)
    requires AllPlain(x) && mark != "" && mark[0] == '"'
    ensures AttValue(x + (mark + y)) == Some((x, mark + y))
  {
    var s := x + (mark + y);
    if x == "" {
      assert s == mark + y && s[0] == '"';
    } else {
      AttValueBack(x[1..], mark, y);
      assert s[0] == x[0] && s[1..] == x[1..] + (mark + y);
      assert x == [x[0]] + x[1..];
    }
  }

  lemma NoSegment(m: Markup, s: string)
    requires Readable(m)
    ensures Strip(m.segmentOpen, m.libraryClose + s).None?
  {
    var t := m.libraryClose + s;
    assert t[1] == m.libraryClose[1];
  }

  lemma {:induction false} SegmentsRead(m: Markup, addresses: seq<nat>, s: string)
    requires Readable(m)
    ensures ReadSegments(m, SegmentsText(Marked(m), addresses) + (m.libraryClose + s))
            == (addresses, m.libraryClose + s)
    decreases |addresses|
  {
    var closing := m.libraryClose + s;
    if addresses == [] {
      assert "" + closing == closing;
      NoSegment(m, s);
    } else {
      var first, later := addresses[0], addresses[1..];
      var texts := SegmentsText(Marked(m), later);
      SegmentsRead(m, later, s);
      FirstSegmentRead(m, first, texts + closing);
      Assoc(SegmentText(Marked(m), first), texts, closing);
      assert addresses == [first] + later;
    }
  }

  lemma FirstSegmentRead(m: Markup, address: nat, tail: string)
    requires Readable(m)
    ensures ReadSegments(m, SegmentText(Marked(m), address) + tail)
            == var (addresses, rest) := ReadSegments(m, tail); ([address] + addresses, rest)
  {
    var number := "0x" + Hex(address);
    var inner := number + (m.segmentEnd + tail);
    SegmentParts(m.segmentOpen, "0x", Hex(address), m.segmentEnd, tail);
    StripBack(m.segmentOpen, inner);
    NumberRead(address);
    AttValueBack(number, m.segmentEnd, tail);
    StripBack(m.segmentEnd, tail);
  }

  lemma SegmentParts(a: string, x: string, b: string, c: string, d: string)
    ensures a + x + b + c + d == a + (x + b + (c + d))
  {
  }

  /** Every address is plain and read back as the number it is. */
  lemma NumberRead(n: nat)
    ensures AllPlain("0x" + Hex(n)) && ReadNumber("0x" + Hex(n)) == Some(n)
  {
    var s := "0x" + Hex(n);
    HexIsPlain(n);
    UnHexHex(n);
    assert s[2..] == Hex(n);
    assert forall k :: 2 <= k < |s| ==> s[k] == Hex(n)[k - 2];
  }

  lemma {:induction false} LibrariesRead(m: Markup, libs: seq<Library>)
    requires Readable(m) && PlainPaths(libs)
    ensures ReadLibraries(m, Rest(Marked(m), libs)) == Some(libs)
    decreases |libs|
  {
    if libs != [] {
      TailPlain(libs);
      LibrariesRead(m, libs[1..]);
      FirstLibraryRead(m, libs[0], libs[1..]);
      assert libs == [libs[0]] + libs[1..];
    }
  }

  lemma TailPlain(libs: seq<Library>)
    requires PlainPaths(libs) && libs != []
    ensures AllPlain(libs[0].path) && PlainPaths(libs[1..])
  {
    assert libs[0] in libs && forall lib :: lib in libs[1..] ==> lib in libs;
  }

  predicate PlainPaths(libs: seq<Library>) {
    forall lib :: lib in libs ==> AllPlain(lib.path)
  }

  lemma FirstLibraryRead(m: Markup, lib: Library, libs: seq<Library>)
    requires Readable(m) && AllPlain(lib.path) && ReadLibraries(m, Rest(Marked(m), libs)) == Some(libs)
    ensures ReadLibraries(m, LibraryText(Marked(m), lib) + Rest(Marked(m), libs)) == Some([lib] + libs)
  {
    var left := Rest(Marked(m), libs);
    var closing := m.libraryClose + left;
    var body := SegmentsText(Marked(m), lib.addresses) + closing;
    var inner := lib.path + (m.nameEnd + body);
    var all := LibraryText(Marked(m), lib) + left;
    LibraryParts(m.libraryOpen, lib.path, m.nameEnd, SegmentsText(Marked(m), lib.addresses), m.libraryClose, left);
    assert all == m.libraryOpen + inner;
    assert all[1] == m.libraryOpen[1] && all != m.listClose;
    StripBack(m.libraryOpen, inner);
    AttValueBack(lib.path, m.nameEnd, body);
    StripBack(m.nameEnd, body);
    SegmentsRead(m, lib.addresses, left);
    StripBack(m.libraryClose, left);
  }

  lemma LibraryParts(a: string, b: string, c: string, d: string, e: string, f: string)
    ensures a + b + c + d + e + f == a + (b + (c + (d + (e + f))))
  {
  }

  /** Whatever is read as a path is plain. */
  lemma {:induction false} PathsReadArePlain(m: Markup, s: string)
    requires Readable(m) && ReadLibraries(m, s).Some?
    ensures PlainPaths(ReadLibraries(m, s).value)
    decreases |s|
  {
    if s != m.listClose {
      var inner := Strip(m.libraryOpen, s).value;
      var (path, end) := AttValue(inner).value;
      AttValueIsPlain(inner);
      var (_, closing) := ReadSegments(m, Strip(m.nameEnd, end).value);
      PathsReadArePlain(m, Strip(m.libraryClose, closing).value);
    }
  }

  lemma {:induction false} AttValueIsPlain(s: string)
    ensures AttValue(s).Some? ==> AllPlain(AttValue(s).value.0)
  {
    if s != "" && s[0] != '"' {
      AttValueIsPlain(s[1..]);
    }
  }

  /** The document tells exactly the modules that are listed, by path and segment addresses, if and only if
      every path is plain: get_libraries does not escape the paths. */
  lemma DocumentReadsBackExactly(modules: seq<ModuleInfo>)
    ensures Readable(ListMarkup())
    ensures ReadDocument(ListMarkup(), Document(Xml(), Listing(modules))) == Some(Listing(modules))
            <==> forall info :: info in modules && info.Info? ==> AllPlain(info.path)
  {
    var m, libs := ListMarkup(), Listing(modules);
    assert Xml() == Marked(m);
    ListedPaths(modules);
    StripBack(m.listOpen, Rest(Xml(), libs));
    if PlainPaths(libs) {
      LibrariesRead(m, libs);
    } else if ReadLibraries(m, Rest(Xml(), libs)).Some? {
      PathsReadArePlain(m, Rest(Xml(), libs));
    }
  }

  /** A library's addresses are those of its segments up to the first of size zero, and of no others. */
  lemma {:induction false} AddressesExactly(segments: seq<Segment>)
    ensures var n := |Addresses(segments)|;
            && n <= |segments| && (n < |segments| ==> segments[n].size == 0)
            && forall k :: 0 <= k < n ==> segments[k].size > 0 && Addresses(segments)[k] == segments[k].vaddr
  {
    if segments != [] && segments[0].size != 0 {
      AddressesExactly(segments[1..]);
      assert forall k :: 0 < k < |segments| ==> segments[k] == segments[1..][k - 1];
    }
  }

  /** Every module whose information can be had is listed in its place, whatever comes before and after it, and no
      other is. */
  lemma {:induction false} ListedInPlace(modules: seq<ModuleInfo>, i: nat)
    requires i < |modules|
    ensures var before, after := Listing(modules[..i]), Listing(modules[i + 1..]);
            Listing(modules) == match modules[i]
                                case Info(path, segments) => before + [Library(path, Addresses(segments))] + after
                                case _ => before + after
  {
    if i > 0 {
      var rest := modules[1..];
      ListedInPlace(rest, i - 1);
      assert rest[i - 1] == modules[i] && rest[i..] == modules[i + 1..];
      assert modules[..i][0] == modules[0] && modules[..i][1..] == rest[..i - 1];
    }
  }

  lemma {:induction false} ListedPaths(modules: seq<ModuleInfo>)
    ensures PlainPaths(Listing(modules))
            <==> forall info :: info in modules && info.Info? ==> AllPlain(info.path)
  {
    if modules != [] {
      ListedPaths(modules[1..]);
      var libs := Listing(modules[1..]);
      assert forall info :: info in modules <==> info == modules[0] || info in modules[1..];
      if modules[0].Info? {
        var lib := Library(modules[0].path, Addresses(modules[0].segments));
        assert Listing(modules) == [lib] + libs;
      } else {
        assert Listing(modules) == libs;
      }
    }
  }

  /** With a quotation mark in a path, one module can look like two. */
  lemma QuotedPathLooksLikeTwo(m: Markup)
    ensures var path := "a" + m.nameEnd + m.libraryClose + m.libraryOpen + "b";
            Document(m, Listing([Info(path, [])])) == Document(m, Listing([Info("a", []), Info("b", [])]))
  {
    var a, b := Library("a", []), Library("b", []);
    var path := "a" + m.nameEnd + m.libraryClose + m.libraryOpen + "b";
    var one := Library(path, []);
    assert [Info("a", []), Info("b", [])][1..] == [Info("b", [])];
    ListingStep(m, [Info("a", []), Info("b", [])], 0);
    ListingStep(m, [Info("b", [])], 0);
    ListingStep(m, [Info(path, [])], 0);
    Glued(m.libraryOpen, "a", m.nameEnd, m.libraryClose, "b");
    Assoc(LibraryText(m, a), LibraryText(m, b), Rest(m, []));
  }

  lemma Glued(o: string, a: string, e: string, c: string, b: string)
    ensures o + (a + e + c + o + b) + e + "" + c == (o + a + e + "" + c) + (o + b + e + "" + c)
  {
  }
}
