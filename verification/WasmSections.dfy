/**
 * The section structure of a wasm module and its surgery (src/wasm/sections.ts; sections 5.5.2 and 5.5.3
 * of the WebAssembly core specification).
 */
module WasmSections {
  import opened Prelude
  import opened Doubles
  import opened Bytes
  import opened Abbrev

  /** A section located in the module's bytes; `name` is given exactly for custom sections. */
  datatype Section = Section(id: nat, name: Option<string>, start: nat, payloadStart: nat, payloadEnd: nat)

  const HEADER: seq<byte> := [0x00, 0x61, 0x73, 0x6d, 0x01, 0x00, 0x00, 0x00]
  const CUSTOM: nat := 0

  // ----- Parsing -----

  /** A ULEB128 of at most five bytes. */
  function ULeb5(s: seq<byte>, p: nat): (r: Read<nat>)
    ensures r.Read? ==> p < r.next <= |s|
  {
    var r := ULeb(s, p);
    if r.Read? && r.next <= p + 5 then r else Malformed
  }

  /** A custom section's content starts after its name, which must not run past the section. */
  function CustomAt(s: seq<byte>, p: nat, body: nat, end: nat, utf8: seq<byte> -> string): (r: Read<Section>)
    requires p < body <= end <= |s|
    ensures r.Read? ==> r.next == end && r.value.name.Some? && r.value.id == CUSTOM
    ensures r.Read? ==> r.value.start == p && body <= r.value.payloadStart <= r.value.payloadEnd == end
  {
    var (nameLen, afterNameLen) :- ULeb5(s, body);
    if afterNameLen + nameLen > end then Malformed
    else Read(Section(CUSTOM, Some(utf8(s[afterNameLen..afterNameLen + nameLen])), p, afterNameLen + nameLen, end), end)
  }

  /** One section; `utf8` decodes names. */
  function SectionAt(s: seq<byte>, p: nat, utf8: seq<byte> -> string): (r: Read<Section>)
    requires p < |s|
    ensures r.Read? ==> p == r.value.start < r.value.payloadStart <= r.value.payloadEnd == r.next <= |s|
    ensures r.Read? ==> r.value.id == s[p] as int && (r.value.name.Some? <==> r.value.id == CUSTOM)
  {
    var (size, body) :- ULeb5(s, p + 1);
    if body + size > |s| then Malformed
    else if s[p] as int != CUSTOM then Read(Section(s[p] as int, None, p, body, body + size), body + size)
    else CustomAt(s, p, body, body + size, utf8)
  }

  function SectionsFrom(s: seq<byte>, p: nat, utf8: seq<byte> -> string): Read<seq<Section>>
    decreases |s| - p
  {
    if p >= |s| then Read([], p)
    else
      var section := SectionAt(s, p, utf8);
      if section.Malformed? then Malformed else Prepend(section.value, SectionsFrom(s, section.next, utf8))
  }

  function Parse(s: seq<byte>, utf8: seq<byte> -> string): Read<seq<Section>> {
    if |s| < 8 || s[..8] != HEADER then Malformed else SectionsFrom(s, 8, utf8)
  }

  // ----- Stripping -----

  predicate Removes(shouldRemove: string -> bool, name: Option<string>) {
    name.Some? && shouldRemove(name.value)
  }

  /** Every section lies in a buffer of `n` bytes. */
  predicate Within(sections: seq<Section>, n: nat) {
    forall k :: 0 <= k < |sections| ==> sections[k].start <= sections[k].payloadStart <= sections[k].payloadEnd <= n
  }

  /** The bytes of the sections that stay, in order. */
  function Kept(s: seq<byte>, sections: seq<Section>, shouldRemove: string -> bool): seq<byte>
    requires Within(sections, |s|)
  {
    if sections == [] then []
    else
      (if Removes(shouldRemove, sections[0].name) then [] else s[sections[0].start..sections[0].payloadEnd]) +
      Kept(s, sections[1..], shouldRemove)
  }

  /** Sections that cover the bytes from `p` to `end`, one after another. */
  ghost predicate Tiles(sections: seq<Section>, p: nat, end: nat)
    decreases |sections|
  {
    if sections == [] then p == end
    else
      && p == sections[0].start < sections[0].payloadStart <= sections[0].payloadEnd <= end
      && Tiles(sections[1..], sections[0].payloadEnd, end)
  }

  lemma {:induction false} SectionsTile(s: seq<byte>, p: nat, utf8: seq<byte> -> string)
    requires p <= |s| && SectionsFrom(s, p, utf8).Read?
    ensures Tiles(SectionsFrom(s, p, utf8).value, p, |s|)
    decreases |s| - p
  {
    hide ULeb5;
    if p < |s| {
      SectionsTile(s, SectionAt(s, p, utf8).next, utf8);
    }
  }

  lemma {:induction false} TilesWithin(sections: seq<Section>, p: nat, end: nat)
    requires Tiles(sections, p, end)
    ensures p <= end && Within(sections, end)
    decreases |sections|
  {
    if sections != [] {
      TilesWithin(sections[1..], sections[0].payloadEnd, end);
    }
  }

  lemma ParsedTiles(s: seq<byte>, utf8: seq<byte> -> string)
    requires Parse(s, utf8).Read?
    ensures Tiles(Parse(s, utf8).value, 8, |s|) && Within(Parse(s, utf8).value, |s|)
  {
    SectionsTile(s, 8, utf8);
    TilesWithin(Parse(s, utf8).value, 8, |s|);
  }

  function Strip(s: seq<byte>, shouldRemove: string -> bool, utf8: seq<byte> -> string): Result<seq<byte>> {
    var parsed := Parse(s, utf8);
    if parsed.Malformed? then Thrown
    else
      ParsedTiles(s, utf8);
      Ok(s[..8] + Kept(s, parsed.value, shouldRemove))
  }

  // ----- Sections by content -----

  /** What a section is, wherever it lies: its bytes, and where in them its payload starts. */
  datatype Content = Content(id: nat, name: Option<string>, raw: seq<byte>, payload: seq<byte>)

  function ContentOf(s: seq<byte>, section: Section): Content
    requires section.start <= section.payloadStart <= section.payloadEnd <= |s|
  {
    Content(section.id, section.name, s[section.start..section.payloadEnd], s[section.payloadStart..section.payloadEnd])
  }

  function Contents(s: seq<byte>, sections: seq<Section>): (r: seq<Content>)
    requires Within(sections, |s|)
    ensures |r| == |sections|
  {
    if sections == [] then [] else [ContentOf(s, sections[0])] + Contents(s, sections[1..])
  }

  function Joined(contents: seq<Content>): seq<byte> {
    if contents == [] then [] else contents[0].raw + Joined(contents[1..])
  }

  /** The bytes are those of one section, with this content. */
  ghost predicate IsSection(c: Content, utf8: seq<byte> -> string) {
    && c.raw != []
    && match SectionAt(c.raw, 0, utf8)
       case Malformed => false
       case Read(section, next) => next == |c.raw| && ContentOf(c.raw, section) == c
  }

  // ----- A section reads the same wherever it lies -----

  lemma {:induction false} LebCountLocal(s: seq<byte>, p: nat, t: seq<byte>, q: nat, n: nat)
    requires p + n <= |s| && q + n <= |t| && s[p..p + n] == t[q..q + n]
    requires LebCount(s, p).Read? && LebCount(s, p).next <= p + n
    ensures LebCount(t, q) == Read(LebCount(s, p).value, LebCount(s, p).next - p + q)
    decreases n
  {
    assert s[p] == s[p..p + n][0] && t[q] == t[q..q + n][0];
    if s[p] >= 128 {
      assert s[p + 1..p + 1 + (n - 1)] == s[p..p + n][1..] && t[q + 1..q + 1 + (n - 1)] == t[q..q + n][1..];
      LebCountLocal(s, p + 1, t, q + 1, n - 1);
    }
  }

  lemma {:induction false} LebRoundedLocal(s: seq<byte>, p: nat, t: seq<byte>, q: nat, n: nat, k: nat)
    requires p + n <= |s| && q + n <= |t| && s[p..p + n] == t[q..q + n] && k <= n
    ensures LebRounded(s, p, k) == LebRounded(t, q, k)
    decreases k
  {
    if k > 0 {
      LebRoundedLocal(s, p, t, q, n, k - 1);
      assert s[p + k - 1] == s[p..p + n][k - 1] && t[q + k - 1] == t[q..q + n][k - 1];
    }
  }

  lemma ULebLocal(s: seq<byte>, p: nat, t: seq<byte>, q: nat, n: nat)
    requires p + n <= |s| && q + n <= |t| && s[p..p + n] == t[q..q + n]
    requires ULeb(s, p).Read? && ULeb(s, p).next <= p + n
    ensures ULeb(t, q) == Read(ULeb(s, p).value, ULeb(s, p).next - p + q)
  {
    hide LebCount, LebRounded;
    LebCountLocal(s, p, t, q, n);
    LebRoundedLocal(s, p, t, q, n, LebCount(s, p).value);
  }

  lemma ULeb5Local(s: seq<byte>, p: nat, t: seq<byte>, q: nat, n: nat)
    requires p + n <= |s| && q + n <= |t| && s[p..p + n] == t[q..q + n]
    requires ULeb5(s, p).Read? && ULeb5(s, p).next <= p + n
    ensures ULeb5(t, q) == Read(ULeb5(s, p).value, ULeb5(s, p).next - p + q)
  {
    ULebLocal(s, p, t, q, n);
  }

  lemma SliceOfEqual(s: seq<byte>, p: nat, t: seq<byte>, q: nat, n: nat, i: nat, j: nat)
    requires p + n <= |s| && q + n <= |t| && s[p..p + n] == t[q..q + n] && i <= j <= n
    ensures s[p + i..p + j] == t[q + i..q + j]
  {
    var a, b := s[p + i..p + j], t[q + i..q + j];
    assert forall k :: 0 <= k < j - i ==> a[k] == s[p..p + n][i + k] && b[k] == t[q..q + n][i + k];
  }

  function Moved(section: Section, start: nat): Section
    requires section.start <= section.payloadStart <= section.payloadEnd
  {
    Section(section.id, section.name, start, section.payloadStart - section.start + start,
            section.payloadEnd - section.start + start)
  }

  /** The `n` bytes of `s` at `p` are those of `t` at `q`. */
  ghost predicate SameBytes(s: seq<byte>, p: nat, t: seq<byte>, q: nat, n: nat) {
    p + n <= |s| && q + n <= |t| && s[p..p + n] == t[q..q + n]
  }

  lemma LengthLocal(s: seq<byte>, p: nat, t: seq<byte>, q: nat, n: nat, i: nat)
    requires SameBytes(s, p, t, q, n) && i <= n
    requires ULeb5(s, p + i).Read? && ULeb5(s, p + i).next <= p + n
    ensures ULeb5(t, q + i) == Read(ULeb5(s, p + i).value, ULeb5(s, p + i).next - p + q)
  {
    hide ULeb5;
    SliceOfEqual(s, p, t, q, n, i, n);
    ULeb5Local(s, p + i, t, q + i, n - i);
  }

  lemma ByteLocal(s: seq<byte>, p: nat, t: seq<byte>, q: nat, n: nat)
    requires SameBytes(s, p, t, q, n) && n > 0
    ensures s[p] == t[q] && q < |t|
  {
    assert s[p] == s[p..p + n][0] && t[q] == t[q..q + n][0];
  }

  lemma NameLocal(s: seq<byte>, p: nat, t: seq<byte>, q: nat, n: nat, i: nat, j: nat)
    requires SameBytes(s, p, t, q, n) && i <= j <= n
    ensures p + j <= |s| && q + j <= |t| && s[p + i..p + j] == t[q + i..q + j]
  {
    SliceOfEqual(s, p, t, q, n, i, j);
  }

  lemma ContentLocal(s: seq<byte>, p: nat, t: seq<byte>, q: nat, section: Section)
    requires p == section.start <= section.payloadStart <= section.payloadEnd
    requires SameBytes(s, p, t, q, section.payloadEnd - p)
    ensures section.payloadEnd <= |s| && Moved(section, q).payloadEnd <= |t|
    ensures ContentOf(t, Moved(section, q)) == ContentOf(s, section)
  {
    var n := section.payloadEnd - p;
    NameLocal(s, p, t, q, n, 0, n);
    NameLocal(s, p, t, q, n, section.payloadStart - p, n);
    hide SameBytes;
  }

  lemma CustomLocal(s: seq<byte>, p: nat, t: seq<byte>, q: nat, n: nat, body: nat, utf8: seq<byte> -> string)
    requires SameBytes(s, p, t, q, n) && 0 < body <= n
    requires p + n <= |s| && CustomAt(s, p, p + body, p + n, utf8).Read?
    ensures q + n <= |t|
    ensures CustomAt(t, q, q + body, q + n, utf8) == Read(Moved(CustomAt(s, p, p + body, p + n, utf8).value, q), q + n)
  {
    assert q + n <= |t|;
    hide ULeb5, SameBytes;
    LengthLocal(s, p, t, q, n, body);
    var name := ULeb5(s, p + body).next - p;
    NameLocal(s, p, t, q, n, name, name + ULeb5(s, p + body).value);
  }

  /** A section once its size is read. */
  function Sized(s: seq<byte>, p: nat, body: nat, end: nat, utf8: seq<byte> -> string): Read<Section>
    requires p < body <= end <= |s|
  {
    if s[p] as int != CUSTOM then Read(Section(s[p] as int, None, p, body, end), end)
    else CustomAt(s, p, body, end, utf8)
  }

  lemma SectionIsSized(s: seq<byte>, p: nat, utf8: seq<byte> -> string)
    requires p < |s|
    ensures SectionAt(s, p, utf8) ==
            match ULeb5(s, p + 1)
            case Malformed => Malformed
            case Read(size, body) => if body + size > |s| then Malformed else Sized(s, p, body, body + size, utf8)
  {
    hide ULeb5, CustomAt;
  }

  lemma SizedLocal(s: seq<byte>, p: nat, t: seq<byte>, q: nat, n: nat, body: nat, utf8: seq<byte> -> string)
    requires SameBytes(s, p, t, q, n) && 0 < body <= n && p + n <= |s| && q + n <= |t|
    requires Sized(s, p, p + body, p + n, utf8).Read?
    ensures var r := Sized(s, p, p + body, p + n, utf8).value;
            r.start <= r.payloadStart <= r.payloadEnd && Sized(t, q, q + body, q + n, utf8) == Read(Moved(r, q), q + n)
  {
    hide SameBytes, CustomAt;
    ByteLocal(s, p, t, q, n);
    if s[p] as int == CUSTOM {
      CustomLocal(s, p, t, q, n, body, utf8);
    }
  }

  lemma SameBytesFit(s: seq<byte>, p: nat, t: seq<byte>, q: nat, n: nat)
    requires SameBytes(s, p, t, q, n)
    ensures q + n <= |t|
  {
  }

  lemma HeadLocal(s: seq<byte>, p: nat, t: seq<byte>, q: nat, utf8: seq<byte> -> string)
    requires p < |s| && SectionAt(s, p, utf8).Read?
    requires SameBytes(s, p, t, q, SectionAt(s, p, utf8).next - p)
    ensures q < |t|
    ensures SectionAt(t, q, utf8) ==
            Read(Moved(SectionAt(s, p, utf8).value, q), SectionAt(s, p, utf8).next - p + q)
  {
    hide ULeb5, SameBytes, Sized, SectionAt;
    var n := SectionAt(s, p, utf8).next - p;
    SectionEnds(s, p, utf8);
    SameBytesFit(s, p, t, q, n);
    SectionIsSized(s, p, utf8);
    SectionIsSized(t, q, utf8);
    LengthLocal(s, p, t, q, n, 1);
    SizedLocal(s, p, t, q, n, ULeb5(s, p + 1).next - p, utf8);
  }

  lemma SectionEnds(s: seq<byte>, p: nat, utf8: seq<byte> -> string)
    requires p < |s| && SectionAt(s, p, utf8).Read?
    ensures ULeb5(s, p + 1).Read? && p + 1 < ULeb5(s, p + 1).next
    ensures SectionAt(s, p, utf8).next == ULeb5(s, p + 1).next + ULeb5(s, p + 1).value
  {
    hide ULeb5;
  }

  /** A section's bytes read as the same section wherever they lie. */
  lemma SectionLocal(s: seq<byte>, p: nat, t: seq<byte>, q: nat, utf8: seq<byte> -> string)
    requires p < |s| && SectionAt(s, p, utf8).Read?
    requires SameBytes(s, p, t, q, SectionAt(s, p, utf8).next - p)
    ensures q < |t|
    ensures var r := SectionAt(s, p, utf8);
            && SectionAt(t, q, utf8) == Read(Moved(r.value, q), r.next - p + q)
            && ContentOf(t, Moved(r.value, q)) == ContentOf(s, r.value)
  {
    hide SectionAt, ContentOf, SameBytes;
    HeadLocal(s, p, t, q, utf8);
    ContentLocal(s, p, t, q, SectionAt(s, p, utf8).value);
  }

  lemma SectionIsSection(s: seq<byte>, p: nat, utf8: seq<byte> -> string)
    requires p < |s| && SectionAt(s, p, utf8).Read?
    ensures IsSection(ContentOf(s, SectionAt(s, p, utf8).value), utf8)
  {
    var r := SectionAt(s, p, utf8);
    var raw := s[p..r.next];
    assert raw[0..0 + (r.next - p)] == raw;
    SectionLocal(s, p, raw, 0, utf8);
  }

  lemma ContentsUnfold(s: seq<byte>, section: Section, rest: seq<Section>)
    requires section.start <= section.payloadStart <= section.payloadEnd <= |s| && Within(rest, |s|)
    ensures Within([section] + rest, |s|)
    ensures Contents(s, [section] + rest) == [ContentOf(s, section)] + Contents(s, rest)
    ensures Joined(Contents(s, [section] + rest)) ==
            s[section.start..section.payloadEnd] + Joined(Contents(s, rest))
  {
    assert ([section] + rest)[1..] == rest;
  }

  /** Parsing loses nothing: the sections are sections, and their bytes make up the module. */
  lemma {:induction false} ParsedJoin(s: seq<byte>, p: nat, utf8: seq<byte> -> string)
    requires p <= |s| && SectionsFrom(s, p, utf8).Read?
    ensures var sections := SectionsFrom(s, p, utf8).value;
            && Within(sections, |s|)
            && s[p..] == Joined(Contents(s, sections))
            && AllSections(Contents(s, sections), utf8)
    decreases |s| - p
  {
    hide IsSection, SectionAt, Within, ContentOf;
    if p < |s| {
      var r := SectionAt(s, p, utf8);
      var rest := SectionsFrom(s, r.next, utf8).value;
      ParsedJoin(s, r.next, utf8);
      SectionIsSection(s, p, utf8);
      assert SectionsFrom(s, p, utf8).value == [r.value] + rest;
      hide SectionsFrom, Contents, Joined;
      ContentsUnfold(s, r.value, rest);
      assert s[p..] == s[p..r.next] + s[r.next..];
    } else {
      NothingJoins(s);
    }
  }

  lemma NothingJoins(s: seq<byte>)
    ensures Within([], |s|) && Contents(s, []) == [] && Joined([]) == []
  {
  }

  lemma SectionReads(t: seq<byte>, p: nat, c: Content, utf8: seq<byte> -> string)
    requires IsSection(c, utf8) && At(t, p, c.raw)
    ensures var r := SectionAt(t, p, utf8); r.Read? && r.next == p + |c.raw| && ContentOf(t, r.value) == c
  {
    assert c.raw[0..0 + |c.raw|] == c.raw;
    SectionLocal(c.raw, 0, t, p, utf8);
  }

  lemma SectionsStep(t: seq<byte>, p: nat, utf8: seq<byte> -> string)
    requires p < |t| && SectionAt(t, p, utf8).Read?
    requires SectionsFrom(t, SectionAt(t, p, utf8).next, utf8).Read?
    ensures SectionsFrom(t, p, utf8).Read?
    ensures SectionsFrom(t, p, utf8).value ==
            [SectionAt(t, p, utf8).value] + SectionsFrom(t, SectionAt(t, p, utf8).next, utf8).value
  {
    hide SectionAt;
  }

  /** From `p` on, the module holds exactly these sections. */
  ghost predicate ParsesTo(t: seq<byte>, p: nat, contents: seq<Content>, utf8: seq<byte> -> string) {
    match SectionsFrom(t, p, utf8)
    case Malformed => false
    case Read(sections, _) => Within(sections, |t|) && Contents(t, sections) == contents
  }

  /** One more section in front of sections that parse back. */
  lemma JoinedStep(t: seq<byte>, p: nat, c: Content, rest: seq<Content>, utf8: seq<byte> -> string)
    requires IsSection(c, utf8) && At(t, p, c.raw) && ParsesTo(t, p + |c.raw|, rest, utf8)
    ensures ParsesTo(t, p, [c] + rest, utf8)
  {
    hide SectionAt, ContentOf, Contents, SectionsFrom, IsSection, Within, At;
    SectionReads(t, p, c, utf8);
    SectionsStep(t, p, utf8);
    ContentsUnfold(t, SectionAt(t, p, utf8).value, SectionsFrom(t, p + |c.raw|, utf8).value);
  }

  ghost predicate AllSections(contents: seq<Content>, utf8: seq<byte> -> string) {
    forall c :: c in contents ==> IsSection(c, utf8)
  }

  lemma JoinedSplit(t: seq<byte>, p: nat, c: Content, rest: seq<Content>, utf8: seq<byte> -> string)
    requires At(t, p, Joined([c] + rest)) && AllSections([c] + rest, utf8)
    ensures At(t, p, c.raw) && At(t, p + |c.raw|, Joined(rest))
    ensures |Joined([c] + rest)| == |c.raw| + |Joined(rest)|
    ensures IsSection(c, utf8) && AllSections(rest, utf8)
  {
    assert ([c] + rest)[1..] == rest && c in [c] + rest;
    hide At, IsSection;
    AtSplit(t, p, c.raw, Joined(rest));
  }

  /** Any sections' bytes, one after another, parse back to those sections. */
  lemma {:induction false} JoinedParses(t: seq<byte>, p: nat, contents: seq<Content>, utf8: seq<byte> -> string)
    requires At(t, p, Joined(contents)) && p + |Joined(contents)| == |t|
    requires AllSections(contents, utf8)
    ensures ParsesTo(t, p, contents, utf8)
    decreases |contents|
  {
    if contents != [] {
      hide At, IsSection, AllSections, ParsesTo, Joined;
      var c, rest := contents[0], contents[1..];
      assert contents == [c] + rest;
      JoinedSplit(t, p, c, rest, utf8);
      JoinedParses(t, p + |c.raw|, rest, utf8);
      JoinedStep(t, p, c, rest, utf8);
    }
  }

  function Keep(contents: seq<Content>, shouldRemove: string -> bool): seq<Content> {
    if contents == [] then []
    else (if Removes(shouldRemove, contents[0].name) then [] else [contents[0]]) + Keep(contents[1..], shouldRemove)
  }

  lemma {:induction false} KeptJoins(s: seq<byte>, sections: seq<Section>, shouldRemove: string -> bool)
    requires Within(sections, |s|)
    ensures Kept(s, sections, shouldRemove) == Joined(Keep(Contents(s, sections), shouldRemove))
    decreases |sections|
  {
    if sections != [] {
      KeptJoins(s, sections[1..], shouldRemove);
      var rest := Keep(Contents(s, sections[1..]), shouldRemove);
      assert Contents(s, sections)[1..] == Contents(s, sections[1..]);
      if Removes(shouldRemove, sections[0].name) {
        assert [] + rest == rest;
      } else {
        assert ([ContentOf(s, sections[0])] + rest)[1..] == rest;
      }
    }
  }

  lemma {:induction false} KeepSubset(contents: seq<Content>, shouldRemove: string -> bool)
    ensures forall c :: c in Keep(contents, shouldRemove) <==> c in contents && !Removes(shouldRemove, c.name)
    decreases |contents|
  {
    if contents != [] {
      KeepSubset(contents[1..], shouldRemove);
    }
  }

  /** The contents of a module that parses. */
  function ModuleContents(s: seq<byte>, utf8: seq<byte> -> string): seq<Content>
    requires Parse(s, utf8).Read?
  {
    ParsedTiles(s, utf8);
    Contents(s, Parse(s, utf8).value)
  }

  /** A module is its header and the bytes of its sections. */
  lemma ModuleJoins(s: seq<byte>, utf8: seq<byte> -> string)
    requires Parse(s, utf8).Read?
    ensures s == HEADER + Joined(ModuleContents(s, utf8))
    ensures AllSections(ModuleContents(s, utf8), utf8)
  {
    hide SectionsFrom, IsSection, Contents, Joined;
    ParsedJoin(s, 8, utf8);
    assert s == s[..8] + s[8..];
  }

  lemma JoinedModuleParses(contents: seq<Content>, utf8: seq<byte> -> string)
    requires AllSections(contents, utf8)
    ensures Parse(HEADER + Joined(contents), utf8).Read?
    ensures ModuleContents(HEADER + Joined(contents), utf8) == contents
  {
    hide SectionsFrom, IsSection, Contents, Joined;
    var t := HEADER + Joined(contents);
    assert t[..8] == HEADER && t[8..8 + |Joined(contents)|] == Joined(contents);
    JoinedParses(t, 8, contents, utf8);
  }

  /**
   * Stripping commutes with parsing: every module that parses strips to one whose sections are exactly the
   * kept sections, in order, with identical bytes and payloads.
   */
  lemma StripCommutes(s: seq<byte>, shouldRemove: string -> bool, utf8: seq<byte> -> string)
    requires Parse(s, utf8).Read?
    ensures var stripped := Strip(s, shouldRemove, utf8);
            && stripped.Ok? && Parse(stripped.value, utf8).Read?
            && stripped.value == HEADER + Joined(ModuleContents(stripped.value, utf8))
            && ModuleContents(stripped.value, utf8) == Keep(ModuleContents(s, utf8), shouldRemove)
  {
    hide SectionsFrom, IsSection, Contents, Joined, Kept, Keep;
    var kept := Keep(ModuleContents(s, utf8), shouldRemove);
    ParsedTiles(s, utf8);
    KeptJoins(s, Parse(s, utf8).value, shouldRemove);
    ModuleJoins(s, utf8);
    KeepSubset(ModuleContents(s, utf8), shouldRemove);
    JoinedModuleParses(kept, utf8);
  }

  lemma {:induction false} KeepTwice(contents: seq<Content>, a: string -> bool, b: string -> bool)
    ensures Keep(Keep(contents, a), b) == Keep(contents, name => a(name) || b(name))
    decreases |contents|
  {
    if contents != [] {
      KeepTwice(contents[1..], a, b);
      if !Removes(a, contents[0].name) {
        assert ([contents[0]] + Keep(contents[1..], a))[1..] == Keep(contents[1..], a);
      } else {
        assert [] + Keep(contents[1..], a) == Keep(contents[1..], a);
      }
    }
  }

  /** Stripping twice is stripping once by either predicate; so it is idempotent, and order does not matter. */
  lemma StripComposes(s: seq<byte>, a: string -> bool, b: string -> bool, utf8: seq<byte> -> string)
    requires Parse(s, utf8).Read?
    ensures Strip(s, a, utf8).Ok?
    ensures Strip(Strip(s, a, utf8).value, b, utf8) == Strip(s, name => a(name) || b(name), utf8)
  {
    hide SectionsFrom, ModuleContents, Joined, Keep, Strip;
    var either := name => a(name) || b(name);
    StripCommutes(s, a, utf8);
    StripCommutes(Strip(s, a, utf8).value, b, utf8);
    StripCommutes(s, either, utf8);
    KeepTwice(ModuleContents(s, utf8), a, b);
  }

  lemma {:induction false} KeepAgain(contents: seq<Content>, a: string -> bool)
    ensures Keep(Keep(contents, a), a) == Keep(contents, a)
    decreases |contents|
  {
    if contents != [] {
      KeepAgain(contents[1..], a);
      if !Removes(a, contents[0].name) {
        assert ([contents[0]] + Keep(contents[1..], a))[1..] == Keep(contents[1..], a);
      } else {
        assert [] + Keep(contents[1..], a) == Keep(contents[1..], a);
      }
    }
  }

  lemma StripIdempotent(s: seq<byte>, a: string -> bool, utf8: seq<byte> -> string)
    requires Parse(s, utf8).Read?
    ensures Strip(s, a, utf8).Ok? && Strip(Strip(s, a, utf8).value, a, utf8) == Strip(s, a, utf8)
  {
    hide SectionsFrom, ModuleContents, Joined, Keep, Strip;
    StripCommutes(s, a, utf8);
    StripCommutes(Strip(s, a, utf8).value, a, utf8);
    KeepAgain(ModuleContents(s, utf8), a);
  }

  // ----- Encoding -----

  /** A section to be written: a custom section by the bytes of its name, any other by its id. */
  datatype SectionSource = Plain(id: nat, payload: seq<byte>) | Custom(name: seq<byte>, payload: seq<byte>)

  function EncodeContents(source: SectionSource): seq<byte> {
    match source
    case Plain(_, payload) => payload
    case Custom(name, payload) => EncodeULeb(|name|) + (name + payload)
  }

  predicate SectionFits(source: SectionSource) {
    && (source.Plain? ==> 0 < source.id < 256)
    && |EncodeContents(source)| < 0x8_0000_0000
  }

  function EncodeSection(source: SectionSource): seq<byte>
    requires SectionFits(source)
  {
    [if source.Plain? then source.id else 0] + (EncodeULeb(|EncodeContents(source)|) + EncodeContents(source))
  }

  /** What the section is, once written. */
  function Meant(source: SectionSource, utf8: seq<byte> -> string): Content
    requires SectionFits(source)
  {
    match source
    case Plain(id, payload) => Content(id, None, EncodeSection(source), payload)
    case Custom(name, payload) => Content(0, Some(utf8(name)), EncodeSection(source), payload)
  }

  lemma {:induction false} ULebWidth(v: nat, k: nat)
    requires k >= 1 && v < Pow128(k)
    ensures |EncodeULeb(v)| <= k
    decreases k
  {
    if v >= 128 {
      assert k > 1;
      ULebWidth(v / 128, k - 1);
    }
  }

  lemma LengthReads(s: seq<byte>, p: nat, v: nat)
    requires At(s, p, EncodeULeb(v)) && v < 0x8_0000_0000
    ensures ULeb5(s, p) == Read(v, p + |EncodeULeb(v)|)
  {
    assert Pow128(5) == 0x8_0000_0000;
    hide Pow128, At, ULeb, EncodeULeb, IsDouble;
    ULebWidth(v, 5);
    RoundExactIff(v);
    ULebInverts(s, p, v);
  }

  lemma CustomReads(s: seq<byte>, p: nat, body: nat, name: seq<byte>, payload: seq<byte>, utf8: seq<byte> -> string)
    requires p < body && At(s, body, EncodeULeb(|name|) + (name + payload))
    requires |name| < 0x8_0000_0000
    ensures var end := body + |EncodeULeb(|name|) + (name + payload)|;
            && end <= |s|
            && CustomAt(s, p, body, end, utf8) == Read(Section(CUSTOM, Some(utf8(name)), p, end - |payload|, end), end)
            && s[end - |payload|..end] == payload
  {
    hide ULeb5, EncodeULeb;
    var length := EncodeULeb(|name|);
    AtSplit(s, body, length, name + payload);
    AtSplit(s, body + |length|, name, payload);
    LengthReads(s, body, |name|);
    assert s[body + |length|..body + |length| + |name|] == name;
  }

  lemma HeadReads(s: seq<byte>, source: SectionSource)
    requires SectionFits(source) && s == EncodeSection(source)
    ensures var contents := EncodeContents(source);
            var body := 1 + |EncodeULeb(|contents|)|;
            && s != [] && s[0] as int == (if source.Plain? then source.id else CUSTOM)
            && ULeb5(s, 1) == Read(|contents|, body) && body + |contents| == |s|
            && At(s, body, contents)
  {
    var contents := EncodeContents(source);
    var head, length := s[..1], EncodeULeb(|contents|);
    assert s == head + (length + contents) && s[0..|s|] == s;
    hide ULeb5, EncodeULeb, EncodeContents;
    AtSplit(s, 0, head, length + contents);
    AtSplit(s, 1, length, contents);
    LengthReads(s, 1, |contents|);
  }

  lemma Whole(s: seq<byte>)
    ensures s[0..|s|] == s
  {
  }

  lemma PlainInverts(id: nat, payload: seq<byte>, utf8: seq<byte> -> string)
    requires SectionFits(Plain(id, payload))
    ensures IsSection(Meant(Plain(id, payload), utf8), utf8)
  {
    hide ULeb5, EncodeULeb, EncodeSection;
    var s := EncodeSection(Plain(id, payload));
    HeadReads(s, Plain(id, payload));
    Whole(s);
  }

  lemma CustomSectionAt(name: seq<byte>, payload: seq<byte>, utf8: seq<byte> -> string)
    requires SectionFits(Custom(name, payload))
    ensures var s := EncodeSection(Custom(name, payload));
            && s != []
            && |s| >= |payload|
            && SectionAt(s, 0, utf8) == Read(Section(CUSTOM, Some(utf8(name)), 0, |s| - |payload|, |s|), |s|)
            && s[|s| - |payload|..|s|] == payload
  {
    var source := Custom(name, payload);
    var s, contents := EncodeSection(source), EncodeContents(source);
    assert contents == EncodeULeb(|name|) + (name + payload) && |name| < 0x8_0000_0000;
    hide ULeb5, EncodeULeb, EncodeSection, EncodeContents, SectionFits, At, CustomAt, SectionAt;
    HeadReads(s, source);
    var body := 1 + |EncodeULeb(|contents|)|;
    SectionIsCustom(s, |contents|, body, utf8);
    CustomReads(s, 0, body, name, payload, utf8);
  }

  lemma SectionIsCustom(s: seq<byte>, size: nat, body: nat, utf8: seq<byte> -> string)
    requires s != [] && s[0] as int == CUSTOM && ULeb5(s, 1) == Read(size, body) && body + size == |s|
    ensures 0 < body && SectionAt(s, 0, utf8) == CustomAt(s, 0, body, |s|, utf8)
  {
    hide ULeb5, CustomAt;
  }

  lemma CustomInverts(name: seq<byte>, payload: seq<byte>, utf8: seq<byte> -> string)
    requires SectionFits(Custom(name, payload))
    ensures IsSection(Meant(Custom(name, payload), utf8), utf8)
  {
    hide SectionFits, EncodeSection, SectionAt;
    CustomSectionAt(name, payload, utf8);
    Whole(EncodeSection(Custom(name, payload)));
  }

  /** Every written section reads back: its id, name and payload, and nothing left over. */
  lemma SectionInverts(source: SectionSource, utf8: seq<byte> -> string)
    requires SectionFits(source)
    ensures IsSection(Meant(source, utf8), utf8)
  {
    hide SectionFits, IsSection;
    match source
    case Plain(id, payload) => PlainInverts(id, payload, utf8);
    case Custom(name, payload) => CustomInverts(name, payload, utf8);
  }

  function AllMeant(sources: seq<SectionSource>, utf8: seq<byte> -> string): seq<Content>
    requires forall k :: 0 <= k < |sources| ==> SectionFits(sources[k])
  {
    if sources == [] then [] else [Meant(sources[0], utf8)] + AllMeant(sources[1..], utf8)
  }

  function EncodeSections(sources: seq<SectionSource>): seq<byte>
    requires forall k :: 0 <= k < |sources| ==> SectionFits(sources[k])
  {
    if sources == [] then [] else EncodeSection(sources[0]) + EncodeSections(sources[1..])
  }

  lemma {:induction false} SourcesJoin(sources: seq<SectionSource>, utf8: seq<byte> -> string)
    requires forall k :: 0 <= k < |sources| ==> SectionFits(sources[k])
    ensures AllSections(AllMeant(sources, utf8), utf8)
    ensures Joined(AllMeant(sources, utf8)) == EncodeSections(sources)
    decreases |sources|
  {
    hide IsSection, EncodeSection, SectionFits;
    if sources != [] {
      SectionInverts(sources[0], utf8);
      SourcesJoin(sources[1..], utf8);
      assert ([Meant(sources[0], utf8)] + AllMeant(sources[1..], utf8))[1..] == AllMeant(sources[1..], utf8);
    }
  }

  /** The magic number `\0asm` and version 1 (section 5.5.16 of the WebAssembly core specification). */
  function Preamble(): seq<byte> {
    [0x00, 'a' as int, 's' as int, 'm' as int, 1, 0, 0, 0]
  }

  /** Anything else at the front is refused. */
  lemma PreambleRequired(s: seq<byte>, utf8: seq<byte> -> string)
    requires !(Preamble() <= s)
    ensures Parse(s, utf8).Malformed?
  {
    assert Preamble() == HEADER;
  }

  /** Parsing inverts encoding for whole modules, custom sections and their names included. */
  lemma ModuleInverts(sources: seq<SectionSource>, utf8: seq<byte> -> string)
    requires forall k :: 0 <= k < |sources| ==> SectionFits(sources[k])
    ensures Parse(Preamble() + EncodeSections(sources), utf8).Read?
    ensures ModuleContents(Preamble() + EncodeSections(sources), utf8) == AllMeant(sources, utf8)
  {
    assert Preamble() == HEADER;
    hide SectionFits, Parse, ModuleContents, AllSections;
    SourcesJoin(sources, utf8);
    JoinedModuleParses(AllMeant(sources, utf8), utf8);
  }

  // ----- Looking sections up -----

  function FirstCustom(contents: seq<Content>, name: string): Option<seq<byte>> {
    if contents == [] then None
    else if contents[0].name == Some(name) then Some(contents[0].payload)
    else FirstCustom(contents[1..], name)
  }

  function FirstCode(contents: seq<Content>): Option<Content> {
    if contents == [] then None else if contents[0].id == 10 then Some(contents[0]) else FirstCode(contents[1..])
  }

  lemma {:induction false} KeepLookups(contents: seq<Content>, shouldRemove: string -> bool, name: string)
    requires forall c :: c in contents ==> (c.name.Some? <==> c.id == CUSTOM)
    ensures FirstCode(Keep(contents, shouldRemove)) == FirstCode(contents)
    ensures FirstCustom(Keep(contents, shouldRemove), name) ==
            if shouldRemove(name) then None else FirstCustom(contents, name)
    decreases |contents|
  {
    if contents != [] {
      KeepLookups(contents[1..], shouldRemove, name);
      var rest := Keep(contents[1..], shouldRemove);
      if !Removes(shouldRemove, contents[0].name) {
        assert ([contents[0]] + rest)[1..] == rest;
      } else {
        assert [] + rest == rest;
      }
    }
  }

  lemma SectionNamed(c: Content, utf8: seq<byte> -> string)
    requires IsSection(c, utf8)
    ensures c.name.Some? <==> c.id == CUSTOM
  {
  }

  /** The code section and every kept custom section read the same before and after; removed ones are gone. */
  lemma StripKeepsLookups(s: seq<byte>, shouldRemove: string -> bool, utf8: seq<byte> -> string, name: string)
    requires Parse(s, utf8).Read?
    ensures Strip(s, shouldRemove, utf8).Ok? && Parse(Strip(s, shouldRemove, utf8).value, utf8).Read?
    ensures var before := ModuleContents(s, utf8);
            var after := ModuleContents(Strip(s, shouldRemove, utf8).value, utf8);
            && FirstCode(after) == FirstCode(before)
            && FirstCustom(after, name) == if shouldRemove(name) then None else FirstCustom(before, name)
  {
    hide SectionsFrom, ModuleContents, Joined, Keep, Strip, IsSection;
    StripCommutes(s, shouldRemove, utf8);
    ModuleJoins(s, utf8);
    forall c | c in ModuleContents(s, utf8)
      ensures c.name.Some? <==> c.id == CUSTOM
    {
      SectionNamed(c, utf8);
    }
    KeepLookups(ModuleContents(s, utf8), shouldRemove, name);
  }

  // ----- The parser and the strippers -----

  /** `readUleb`: the value and the offset after it. */
  method ReadUleb(bytes: seq<byte>, offset: nat) returns (r: Result<(nat, nat)>)
    ensures match r
            case Ok(v) => ULeb5(bytes, offset) == Read(v.0, v.1)
            case Thrown => ULeb5(bytes, offset).Malformed?
  {
    hide LebCount, LebSum, LebRounded, More, Pow128;
    var value: nat, weight: nat := 0, 1;
    NothingSummed(bytes, offset);
    for i := 0 to 5
      invariant (i > 0 ==> offset + i <= |bytes|) && (offset + i <= |bytes| ==> value == LebSum(bytes, offset, i))
      invariant weight == Pow128(i)
      invariant LebCount(bytes, offset) == More(i, LebCount(bytes, offset + i))
    {
      CountStep(bytes, offset + i, i);
      if offset + i >= |bytes| {
        return Thrown;
      }
      LebSumStep(bytes, offset, i);
      var byte := bytes[offset + i];
      value := value + (byte as int % 128) * weight;
      if byte < 128 {
        FiveGroupsExact(bytes, offset, i + 1);
        return Ok((value, offset + i + 1));
      }
      weight := weight * 128;
    }
    MoreThan(5, LebCount(bytes, offset + 5));
    return Thrown;
  }

  lemma NothingSummed(s: seq<byte>, p: nat)
    ensures (p <= |s| ==> LebSum(s, p, 0) == 0) && Pow128(0) == 1 && LebCount(s, p) == More(0, LebCount(s, p))
  {
  }

  lemma LebSumStep(s: seq<byte>, p: nat, n: nat)
    requires p + n < |s|
    ensures LebSum(s, p, n + 1) == LebSum(s, p, n) + (s[p + n] as int % 128) * Pow128(n)
    ensures Pow128(n + 1) == Pow128(n) * 128
  {
  }

  lemma MoreThan(n: nat, r: Read<nat>)
    ensures More(n, r).Read? <==> r.Read?
    ensures r.Read? ==> More(n, r).next == r.next
  {
  }

  /** Five groups stay far below 2^53: doubles add them up exactly. */
  lemma FiveGroupsExact(s: seq<byte>, p: nat, n: nat)
    requires p + n <= |s| && n <= 5
    ensures LebRounded(s, p, n) == LebSum(s, p, n)
  {
    assert Pow128(5) == 0x8_0000_0000;
    hide LebSum, LebRounded, IsDouble, Pow128;
    LebSumBelow(s, p, n);
    Pow128Grows(n, 5);
    RoundExactIff(LebSum(s, p, n));
    LebExact(s, p, n);
  }

  method ParseWasmSections(bytes: seq<byte>, utf8: seq<byte> -> string) returns (r: Result<seq<Section>>)
    ensures match r
            case Ok(sections) => Parse(bytes, utf8).Read? && Parse(bytes, utf8).value == sections
            case Thrown => Parse(bytes, utf8).Malformed?
  {
    hide ULeb5;
    if |bytes| < 8 || bytes[..8] != HEADER {
      return Thrown;
    }
    var sections: seq<Section> := [];
    var offset: nat := 8;
    PrependAllEnds(SectionsFrom(bytes, 8, utf8), [], 0);
    while offset < |bytes|
      invariant offset <= |bytes|
      invariant SectionsFrom(bytes, 8, utf8) == PrependAll(sections, SectionsFrom(bytes, offset, utf8))
    {
      var start := offset;
      var id := bytes[offset] as nat;
      var size :- ReadUleb(bytes, offset + 1);
      var sectionEnd := size.1 + size.0;
      if sectionEnd > |bytes| {
        return Thrown;
      }
      var name: Option<string> := None;
      var payloadStart := size.1;
      if id == CUSTOM {
        var nameLen :- ReadUleb(bytes, size.1);
        var nameEnd := nameLen.1 + nameLen.0;
        if nameEnd > sectionEnd {
          return Thrown;
        }
        name := Some(utf8(bytes[nameLen.1..nameEnd]));
        payloadStart := nameEnd;
      }
      var section := Section(id, name, start, payloadStart, sectionEnd);
      PrependAllSnoc(sections, section, SectionsFrom(bytes, sectionEnd, utf8));
      sections := sections + [section];
      offset := sectionEnd;
    }
    PrependAllEnds(SectionsFrom(bytes, offset, utf8), sections, offset);
    return Ok(sections);
  }

  lemma {:induction false} KeptSnoc(s: seq<byte>, sections: seq<Section>, k: nat, shouldRemove: string -> bool)
    requires Within(sections, |s|) && k < |sections|
    ensures Kept(s, sections[..k + 1], shouldRemove) ==
            Kept(s, sections[..k], shouldRemove) +
            (if Removes(shouldRemove, sections[k].name) then [] else s[sections[k].start..sections[k].payloadEnd])
    decreases k
  {
    if k == 0 {
      assert sections[..1][1..] == [] && sections[..0] == [];
    } else {
      KeptSnoc(s, sections[1..], k - 1, shouldRemove);
      assert sections[..k + 1][1..] == sections[1..][..k] && sections[..k][1..] == sections[1..][..k - 1];
    }
  }

  /** `stripCustomSections`. */
  method StripCustomSections(bytes: seq<byte>, shouldRemove: string -> bool, utf8: seq<byte> -> string)
    returns (r: Result<seq<byte>>)
    ensures r == Strip(bytes, shouldRemove, utf8)
  {
    hide SectionsFrom, Removes;
    var sections :- ParseWasmSections(bytes, utf8);
    ParsedTiles(bytes, utf8);
    var stripped := bytes[..8];
    for k := 0 to |sections|
      invariant stripped == bytes[..8] + Kept(bytes, sections[..k], shouldRemove)
    {
      KeptSnoc(bytes, sections, k, shouldRemove);
      if !Removes(shouldRemove, sections[k].name) {
        stripped := stripped + bytes[sections[k].start..sections[k].payloadEnd];
      }
    }
    assert sections[..|sections|] == sections;
    return Ok(stripped);
  }

  predicate IsDebug(name: string) {
    ".debug" <= name
  }

  /** The names `stripDebugSections` removes: those that begin with the six characters `.debug`. */
  lemma IsDebugIff(name: string)
    ensures IsDebug(name) <==> |name| >= 6 && name[..6] == ['.', 'd', 'e', 'b', 'u', 'g']
  {
  }

  /** `stripDebugSections`. */
  method StripDebugSections(bytes: seq<byte>, utf8: seq<byte> -> string) returns (r: Result<seq<byte>>)
    ensures r == Strip(bytes, IsDebug, utf8)
  {
    r := StripCustomSections(bytes, IsDebug, utf8);
  }

  /** `customSection`: the payload of the first section of that name. */
  method CustomSection(bytes: seq<byte>, sections: seq<Section>, name: string) returns (r: Option<seq<byte>>)
    requires Within(sections, |bytes|)
    requires forall k :: 0 <= k < |sections| ==> (sections[k].name.Some? <==> sections[k].id == CUSTOM)
    ensures r == FirstCustom(Contents(bytes, sections), name)
    ensures r.None? <==> forall k :: 0 <= k < |sections| ==> sections[k].name != Some(name)
    ensures forall k :: 0 <= k < |sections| && sections[k].name == Some(name)
                        && (forall j :: 0 <= j < k ==> sections[j].name != Some(name)) ==>
              r == Some(bytes[sections[k].payloadStart..sections[k].payloadEnd])
  {
    for k := 0 to |sections|
      invariant FirstCustom(Contents(bytes, sections), name) == FirstCustom(Contents(bytes, sections[k..]), name)
      invariant forall j :: 0 <= j < k ==> sections[j].name != Some(name)
    {
      assert sections[k..][1..] == sections[k + 1..];
      if sections[k].id == CUSTOM && sections[k].name == Some(name) {
        return Some(bytes[sections[k].payloadStart..sections[k].payloadEnd]);
      }
      ContentsUnfold(bytes, sections[k], sections[k + 1..]);
      assert [sections[k]] + sections[k + 1..] == sections[k..];
    }
    return None;
  }
}
