/** The library list that a debugger reads in chunks (get_libraries, vita-gdb/src/gdb/target.rs:292-334). */
module Libraries {
  import opened Words
  import opened StreamWriter

  datatype Segment = Segment(vaddr: u32, size: u32)

  /** A module whose information cannot be had, one whose path is not UTF-8, or its path and segments. */
  datatype ModuleInfo = NoInfo | BadPath | Info(path: string, segments: seq<Segment>)

  datatype Library = Library(path: string, addresses: seq<nat>)

  datatype LibrariesResult = Count(n: nat) | NonFatal

  // ---- The document

  function Digit(d: nat): char
    requires d < 16
  {
    "0123456789abcdef"[d]
  }

  /** `{:x}` of a number. */
  function Hex(n: nat): string {
    if n < 16 then [Digit(n)] else Hex(n / 16) + [Digit(n % 16)]
  }

  /** The fixed parts of the document. */
  datatype Markup = Markup(
    listOpen: string, libraryOpen: string, nameEnd: string, segmentOpen: string, segmentEnd: string,
    libraryClose: string, listClose: string)

  function Xml(): Markup {
    Markup("<library-list version=\"1.0\">", "<library name=\"", "\">", "<segment address=\"0x", "\"/>",
           "</library>", "</library-list>")
  }

  function SegmentText(m: Markup, address: nat): string {
    m.segmentOpen + Hex(address) + m.segmentEnd
  }

  function SegmentsText(m: Markup, addresses: seq<nat>): string {
    if addresses == [] then "" else SegmentText(m, addresses[0]) + SegmentsText(m, addresses[1..])
  }

  function LibraryText(m: Markup, lib: Library): string {
    m.libraryOpen + lib.path + m.nameEnd + SegmentsText(m, lib.addresses) + m.libraryClose
  }

  /** What follows the start of the list. */
  function Rest(m: Markup, libs: seq<Library>): string {
    if libs == [] then m.listClose else LibraryText(m, libs[0]) + Rest(m, libs[1..])
  }

  function Document(m: Markup, libs: seq<Library>): string {
    m.listOpen + Rest(m, libs)
  }

  /** The addresses up to the first segment of size zero. */
  function Addresses(segments: seq<Segment>): seq<nat> {
    if segments == [] || segments[0].size == 0 then [] else [segments[0].vaddr] + Addresses(segments[1..])
  }

  /** The modules that are listed. */
  function Listing(modules: seq<ModuleInfo>): seq<Library> {
    if modules == [] then []
    else
      (if modules[0].Info? then [Library(modules[0].path, Addresses(modules[0].segments))] else [])
      + Listing(modules[1..])
  }

  lemma ListingStep(m: Markup, modules: seq<ModuleInfo>, i: nat)
    requires i < |modules|
    ensures Rest(m, Listing(modules[i..]))
            == (if modules[i].Info? then LibraryText(m, Library(modules[i].path, Addresses(modules[i].segments)))
                else "")
               + Rest(m, Listing(modules[i + 1..]))
  {
    assert modules[i..][1..] == modules[i + 1..];
    var libs := Listing(modules[i + 1..]);
    if modules[i].Info? {
      var lib := Library(modules[i].path, Addresses(modules[i].segments));
      assert ([lib] + libs)[1..] == libs;
    } else {
      assert [] + libs == libs && "" + Rest(m, libs) == Rest(m, libs);
    }
  }

  lemma AddressesStep(m: Markup, segments: seq<Segment>, i: nat)
    requires i < |segments|
    ensures SegmentsText(m, Addresses(segments[i..]))
            == if segments[i].size == 0 then ""
               else SegmentText(m, segments[i].vaddr) + SegmentsText(m, Addresses(segments[i + 1..]))
  {
    assert segments[i..][1..] == segments[i + 1..];
    var rest := Addresses(segments[i + 1..]);
    assert ([segments[i].vaddr] + rest)[1..] == rest;
  }

  lemma Assoc(a: string, b: string, c: string)
    ensures a + (b + c) == a + b + c
  {
  }

  lemma Joined(a: string, b: string, c: string)
    ensures Join([a]) == a && Join([a, b, c]) == a + b + c
  {
    assert [a, b, c][1..] == [b, c] && [b, c][1..] == [c];
    assert [a][1..] == [] && [c][1..] == [];
    assert Join([b, c]) == b + Join([c]);
  }

  // ---- Writing it

  /** The window of the document that starts at the offset, as far as usize goes, and the rest of the buffer
      as it was. Errors of the single writes are ignored. */
  method GetLibraries(attached: bool, moduleIds: Option<seq<ModuleInfo>>, offset: nat, buf: array<char>)
    returns (r: LibrariesResult)
    modifies buf
    ensures !attached ==> r == Count(0) && buf[..] == old(buf[..])
    ensures attached && moduleIds.None? ==> r == NonFatal && buf[..] == old(buf[..])
    ensures attached && moduleIds.Some? ==>
              var window := Window(Document(Xml(), Listing(moduleIds.value)), Truncated(offset), buf.Length);
              r == Count(|window|) && buf[..] == window + old(buf[..])[|window|..]
  {
    if !attached {
      return Count(0);
    }
    if moduleIds.None? {
      return NonFatal;
    }
    var modules := moduleIds.value;
    var writer := new StreamWriter(buf, Truncated(offset));
    WriteDocument(writer, Xml(), moduleIds.value);
    return Count(writer.written);
  }

  method WriteDocument(writer: StreamWriter, m: Markup, modules: seq<ModuleInfo>)
    requires writer.Valid() && writer.text == ""
    modifies writer`skip, writer`written, writer`text, writer.buf
    ensures writer.Valid() && writer.text == Document(m, Listing(modules))
    ensures forall k :: writer.written <= k < writer.buf.Length ==> writer.buf[k] == old(writer.buf[k])
  {
    Joined(m.listOpen, "", "");
    var _ := writer.WriteFmt([m.listOpen]);
    for i := 0 to |modules|
      invariant writer.Valid()
      invariant writer.text + Rest(m, Listing(modules[i..])) == Document(m, Listing(modules))
      invariant forall k :: writer.written <= k < writer.buf.Length ==> writer.buf[k] == old(writer.buf[k])
    {
      ListingStep(m, modules, i);
      ghost var before, left := writer.text, Rest(m, Listing(modules[i + 1..]));
      if modules[i].Info? {
        WriteLibrary(writer, m, modules[i]);
        Assoc(before, LibraryText(m, Library(modules[i].path, Addresses(modules[i].segments))), left);
      }
    }
    Joined(m.listClose, "", "");
    var _ := writer.WriteFmt([m.listClose]);
  }

  method WriteLibrary(writer: StreamWriter, m: Markup, info: ModuleInfo)
    requires writer.Valid() && info.Info?
    modifies writer`skip, writer`written, writer`text, writer.buf
    ensures writer.Valid()
    ensures writer.text == old(writer.text) + LibraryText(m, Library(info.path, Addresses(info.segments)))
    ensures writer.written >= old(writer.written)
    ensures forall k :: writer.written <= k < writer.buf.Length ==> writer.buf[k] == old(writer.buf[k])
  {
    Joined(m.libraryOpen, info.path, m.nameEnd);
    var _ := writer.WriteFmt([m.libraryOpen, info.path, m.nameEnd]);
    WriteSegments(writer, m, info.segments);
    Joined(m.libraryClose, "", "");
    var _ := writer.WriteFmt([m.libraryClose]);
  }

  method WriteSegments(writer: StreamWriter, m: Markup, segments: seq<Segment>)
    requires writer.Valid()
    modifies writer`skip, writer`written, writer`text, writer.buf
    ensures writer.Valid()
    ensures writer.text == old(writer.text) + SegmentsText(m, Addresses(segments))
    ensures writer.written >= old(writer.written)
    ensures forall k :: writer.written <= k < writer.buf.Length ==> writer.buf[k] == old(writer.buf[k])
  {
    for i := 0 to |segments|
      invariant writer.Valid() && writer.written >= old(writer.written)
      invariant writer.text + SegmentsText(m, Addresses(segments[i..]))
                == old(writer.text) + SegmentsText(m, Addresses(segments))
      invariant forall k :: writer.written <= k < writer.buf.Length ==> writer.buf[k] == old(writer.buf[k])
    {
      AddressesStep(m, segments, i);
      if segments[i].size == 0 {
        break;
      }
      ghost var before, left := writer.text, SegmentsText(m, Addresses(segments[i + 1..]));
      Joined(m.segmentOpen, Hex(segments[i].vaddr), m.segmentEnd);
      var _ := writer.WriteFmt([m.segmentOpen, Hex(segments[i].vaddr), m.segmentEnd]);
      Assoc(before, SegmentText(m, segments[i].vaddr), left);
    }
  }

  // ---- The executable's path

  /** get_exec_file: the window of the module's path field, padding included, that starts at the offset, as
      far as the requested length and the buffer go. */
  method GetExecFile(path: Option<string>, offset: nat, length: nat, buf: array<char>) returns (r: LibrariesResult)
    modifies buf
    ensures path.None? ==> r == NonFatal && buf[..] == old(buf[..])
    ensures path.Some? ==>
              var room := if length < buf.Length then length else buf.Length;
              var window := Window(path.value, Truncated(offset), room);
              r == Count(|window|) && buf[..] == window + old(buf[..])[|window|..]
  {
    if path.None? {
      return NonFatal;
    }
    var start := Truncated(offset);
    var copyLen := if length < buf.Length then length else buf.Length;
    if start >= |path.value| || copyLen == 0 {
      return Count(0);
    }
    var count := if |path.value| - start < copyLen then |path.value| - start else copyLen;
    for i := 0 to count
      invariant forall k :: 0 <= k < i ==> buf[k] == path.value[start + k]
      invariant forall k :: i <= k < buf.Length ==> buf[k] == old(buf[k])
    {
      buf[i] := path.value[start + i];
    }
    assert buf[..count] == path.value[start..start + count] == Window(path.value, start, copyLen);
    assert buf[count..] == old(buf[..])[count..];
    return Count(count);
  }
}
