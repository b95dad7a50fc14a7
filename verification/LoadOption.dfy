/** Load options (section 3.1.3 of UEFI 2.4) as bytes: the writer of the boot manager, the parser, and
    what starting an option reads from its optional data. */
module LoadOption {
  import opened Words
  import opened Cells
  import opened BootLists

  const SIGNATURE: u32 := 0x646F_6261 // 'a', 'b', 'o', 'd'
  const LINUX_ATAG: u32 := 1
  const LINUX_FDT: u32 := 2

  predicate IsLinux(bootType: u32) { bootType == LINUX_ATAG || bootType == LINUX_FDT }

  /** A string of 16-bit characters, without its terminator. */
  predicate IsString(s: seq<u16>) { forall i :: 0 <= i < |s| ==> s[i] != 0 }

  /** Its bytes, with the terminator. */
  function StringBytes(s: seq<u16>): (b: seq<u8>)
    ensures |b| == 2 * |s| + 2
  {
    if s == [] then Encode(0, 2) else Encode(s[0], 2) + StringBytes(s[1..])
  }

  /** The Linux arguments as the boot menu lays them out: two sizes, the command line, the initrd path. */
  function LinuxArguments(cmdLine: seq<u8>, initrd: seq<u8>): seq<u8> {
    Encode(|cmdLine|, 2) + Encode(|initrd|, 2) + cmdLine + initrd
  }

  /** The header of the optional data of a Linux option. */
  function LinuxHeader(bootType: u32): (b: seq<u8>)
    ensures |b| == 8
  {
    Encode(SIGNATURE, 4) + Encode(bootType, 4)
  }

  /** The optional data that is written: Linux options get a header of eight bytes. */
  function OptionalBytes(bootType: u32, data: seq<u8>): seq<u8> {
    if IsLinux(bootType) then LinuxHeader(bootType) + data else data
  }

  /** The device path that is written: its size is kept in 16 bits. */
  function KeptPath(path: seq<u8>): (p: seq<u8>)
    ensures |p| == |path| % TWO_16
  {
    path[..|path| % TWO_16]
  }

  /** The fields before the device path. */
  function Head(attributes: u32, pathLength: u16, description: seq<u16>): (b: seq<u8>)
    ensures |b| == 8 + 2 * |description|
  {
    Encode(attributes, 4) + Encode(pathLength, 2) + StringBytes(description)
  }

  /** The load option in memory. */
  function Serialised(attributes: u32, description: seq<u16>, path: seq<u8>, bootType: u32, data: seq<u8>): seq<u8> {
    Head(attributes, |path| % TWO_16, description) + KeptPath(path) + OptionalBytes(bootType, data)
  }

  // ---------------------------------------------------------------------
  // The layout, byte by byte
  // ---------------------------------------------------------------------

  /** The 16-bit cells from offset o on are the characters of a string, and zero. */
  ghost predicate HoldsString(b: seq<u8>, o: nat, s: seq<u16>) {
    && o + 2 * |s| + 2 <= |b|
    && (forall i :: 0 <= i < |s| ==> Cell(b, o + 2 * i, 2) == s[i])
    && Cell(b, o + 2 * |s|, 2) == 0
  }

  /** The bytes 'a', 'b', 'o', 'd', the loader type and the arguments, or just the data. */
  ghost predicate HoldsData(b: seq<u8>, o: nat, bootType: u32, data: seq<u8>) {
    if bootType == 1 || bootType == 2 then
      && o + 8 + |data| == |b|
      && b[o] == 0x61 && b[o + 1] == 0x62 && b[o + 2] == 0x6F && b[o + 3] == 0x64
      && Cell(b, o + 4, 4) == bootType
      && b[o + 8..] == data
    else o + |data| == |b| && b[o..] == data
  }

  /** A load option: attributes, size of the path, description, path and optional data. The path is
      copied up to its size modulo 64 KB. */
  ghost predicate LaidOut(b: seq<u8>, attributes: u32, description: seq<u16>, path: seq<u8>, bootType: u32, data: seq<u8>) {
    var kept, at := |path| % 0x1_0000, 8 + 2 * |description|;
    && at + kept <= |b|
    && Cell(b, 0, 4) == attributes
    && Cell(b, 4, 2) == kept
    && HoldsString(b, 6, description)
    && b[at..at + kept] == path[..kept]
    && HoldsData(b, at + kept, bootType, data)
  }

  lemma {:induction false} CellOfSlice(b: seq<u8>, lo: nat, c: seq<u8>, o: nat, at: nat, w: nat)
    requires lo + |c| <= |b| && c == b[lo..lo + |c|] && o + w <= |c| && at == lo + o
    ensures Cell(b, at, w) == Cell(c, o, w)
  {
    var d, e := b[at..at + w], c[o..o + w];
    forall k | 0 <= k < w
      ensures d[k] == e[k]
    {
      assert d[k] == b[at + k] == c[o + k];
    }
    assert d == e;
  }

  lemma {:induction false} Characters(s: seq<u16>, i: nat)
    requires i <= |s|
    ensures Cell(StringBytes(s), 2 * i, 2) == if i < |s| then s[i] else 0
    decreases |s|
  {
    RadixValues();
    var b := StringBytes(s);
    if i == 0 {
      var c := if s == [] then 0 else s[0];
      assert b[0..2] == Encode(c, 2);
      DecodeEncode(c, 2);
    } else {
      assert b[2..] == StringBytes(s[1..]) == b[2..|b|];
      Characters(s[1..], i - 1);
      CellOfSlice(b, 2, StringBytes(s[1..]), 2 * (i - 1), 2 * i, 2);
    }
  }

  lemma {:induction false} StringAt(b: seq<u8>, o: nat, s: seq<u16>)
    requires o + 2 * |s| + 2 <= |b| && b[o..o + 2 * |s| + 2] == StringBytes(s)
    ensures HoldsString(b, o, s)
  {
    forall i | 0 <= i < |s|
      ensures Cell(b, o + 2 * i, 2) == s[i]
    {
      CharacterIn(b, o, s, i);
    }
    CharacterIn(b, o, s, |s|);
  }

  lemma {:induction false} CharacterIn(b: seq<u8>, o: nat, s: seq<u16>, i: nat)
    requires o + 2 * |s| + 2 <= |b| && b[o..o + 2 * |s| + 2] == StringBytes(s) && i <= |s|
    ensures Cell(b, o + 2 * i, 2) == if i < |s| then s[i] else 0
  {
    Characters(s, i);
    CellOfSlice(b, o, StringBytes(s), 2 * i, o + 2 * i, 2);
  }

  lemma {:induction false} HeadBytes(attributes: u32, n: u16, description: seq<u16>, post: seq<u8>, b: seq<u8>)
    requires b == Head(attributes, n, description) + post
    ensures Cell(b, 0, 4) == attributes && Cell(b, 4, 2) == n
    ensures b[6..8 + 2 * |description|] == StringBytes(description)
  {
    var a, c, s := Encode(attributes, 4), Encode(n, 2), StringBytes(description);
    RadixValues();
    ThreeAndRest(a, c, s, post, b);
    NumberAt([], attributes, 4, c + s + post, b);
    NumberAt(a, n, 2, s + post, b);
  }

  lemma SignatureBytes()
    ensures Encode(SIGNATURE, 4) == [0x61, 0x62, 0x6F, 0x64]
  {
    assert Encode(0x64, 1) == [0x64];
    assert Encode(0x646F, 2) == [0x6F] + Encode(0x64, 1);
    assert Encode(0x64_6F62, 3) == [0x62] + Encode(0x646F, 2);
    assert Encode(0x646F_6261, 4) == [0x61] + Encode(0x64_6F62, 3);
  }

  lemma {:induction false} DataAt(b: seq<u8>, o: nat, bootType: u32, data: seq<u8>)
    requires o <= |b| && b[o..] == OptionalBytes(bootType, data)
    ensures HoldsData(b, o, bootType, data)
  {
    if IsLinux(bootType) {
      var a, c := Encode(SIGNATURE, 4), Encode(bootType, 4);
      RadixValues();
      SignatureBytes();
      assert b == b[..o] + a + c + data;
      NumberAt(b[..o] + a, bootType, 4, data, b);
    }
  }

  lemma {:induction false} HeadFields(attributes: u32, n: u16, description: seq<u16>, post: seq<u8>, b: seq<u8>)
    requires b == Head(attributes, n, description) + post
    ensures 8 + 2 * |description| <= |b| && b[8 + 2 * |description|..] == post
    ensures Cell(b, 0, 4) == attributes && Cell(b, 4, 2) == n && HoldsString(b, 6, description)
  {
    HeadBytes(attributes, n, description, post, b);
    StringAt(b, 6, description);
  }

  lemma {:induction false} TailFields(kept: seq<u8>, bootType: u32, data: seq<u8>, b: seq<u8>, at: nat, n: nat)
    requires at <= |b| && b[at..] == kept + OptionalBytes(bootType, data) && n == |kept|
    ensures at + n <= |b| && b[at..at + n] == kept && HoldsData(b, at + n, bootType, data)
  {
    var o := OptionalBytes(bootType, data);
    assert b[at..at + n] == b[at..][..n] && b[at + n..] == b[at..][n..] == o;
    DataAt(b, at + n, bootType, data);
  }

  lemma {:induction false} Assembled(attributes: u32, description: seq<u16>, path: seq<u8>, bootType: u32, data: seq<u8>,
                                     b: seq<u8>, n: nat, at: nat)
    requires n == |path| % 0x1_0000 && at == 8 + 2 * |description| && at + n <= |b|
    requires Cell(b, 0, 4) == attributes && Cell(b, 4, 2) == n && b[at..at + n] == path[..n]
    requires HoldsString(b, 6, description) && HoldsData(b, at + n, bootType, data)
    ensures LaidOut(b, attributes, description, path, bootType, data)
  {
  }

  /** The option in memory, field by field. */
  lemma {:induction false} SerialisedLaidOut(attributes: u32, description: seq<u16>, path: seq<u8>, bootType: u32,
                                             data: seq<u8>, b: seq<u8>)
    requires b == Serialised(attributes, description, path, bootType, data)
    ensures LaidOut(b, attributes, description, path, bootType, data)
  {
    var n: nat, at: nat := |path| % TWO_16, 8 + 2 * |description|;
    var head, post := Head(attributes, n, description), KeptPath(path) + OptionalBytes(bootType, data);
    assert b == head + post;
    HeadFields(attributes, n, description, post, b);
    TailFields(KeptPath(path), bootType, data, b, at, n);
    Assembled(attributes, description, path, bootType, data, b, n, at);
  }

  // ---------------------------------------------------------------------
  // The writer
  // ---------------------------------------------------------------------

  /** Writes bytes at an advancing pointer. */
  method Emit(buffer: array<u8>, at: nat, data: seq<u8>, ghost done: seq<u8>) returns (next: nat)
    requires at + |data| <= buffer.Length && buffer[..at] == done
    modifies buffer
    ensures next == at + |data| && buffer[..next] == done + data
  {
    next := at;
    for i := 0 to |data|
      invariant next == at + i && buffer[..next] == done + data[..i]
    {
      buffer[next] := data[i];
      next := next + 1;
    }
    assert data[..|data|] == data;
  }

  /** The arguments that BootOptionSetFields reads for a Linux option: sizes that match the data. */
  predicate SizesMatch(data: seq<u8>) {
    |data| >= 4 && |data| == 4 + Cell(data, 0, 2) + Cell(data, 2, 2)
  }

  /** The two sizes, and each part that is not empty. */
  method EmitArguments(buffer: array<u8>, at: nat, data: seq<u8>, ghost done: seq<u8>) returns (next: nat)
    requires SizesMatch(data) && at + |data| <= buffer.Length && buffer[..at] == done
    modifies buffer
    ensures next == at + |data| && buffer[..next] == done + data
  {
    var cmdLineSize, initrdSize := Cell(data, 0, 2), Cell(data, 2, 2);
    CellIsBytes(data, 0, 2);
    CellIsBytes(data, 2, 2);
    next := Emit(buffer, at, Encode(cmdLineSize, 2), done);
    SliceNext(done, data, 0, 2);
    next := Emit(buffer, next, Encode(initrdSize, 2), done + data[..2]);
    SliceNext(done, data, 2, 4);
    var split := 4 + cmdLineSize;
    if cmdLineSize > 0 {
      next := Emit(buffer, next, data[4..split], done + data[..4]);
    }
    SliceNext(done, data, 4, split);
    assert buffer[..next] == done + data[..split];
    if initrdSize > 0 {
      next := Emit(buffer, next, data[split..], done + data[..split]);
    }
    SliceNext(done, data, split, |data|);
  }

  lemma SliceNext(done: seq<u8>, data: seq<u8>, i: nat, j: nat)
    requires i <= j <= |data|
    ensures done + data[..i] + data[i..j] == done + data[..j]
    ensures data[..0] == [] && data[..|data|] == data && data[i..|data|] == data[i..] && done + [] == done
  {
  }

  /** The optional data of a Linux option. */
  method EmitLinux(buffer: array<u8>, at: nat, bootType: u32, data: seq<u8>, ghost done: seq<u8>) returns (next: nat)
    requires SizesMatch(data) && at + 8 + |data| <= buffer.Length && buffer[..at] == done
    modifies buffer
    ensures next == at + 8 + |data| && buffer[..next] == done + (LinuxHeader(bootType) + data)
  {
    var signature, loader := Encode(SIGNATURE, 4), Encode(bootType, 4);
    next := Emit(buffer, at, signature, done);
    next := Emit(buffer, next, loader, done + signature);
    next := EmitArguments(buffer, next, data, done + signature + loader);
    Joined(done, signature, loader, data);
  }

  lemma Joined(a: seq<u8>, b: seq<u8>, c: seq<u8>, d: seq<u8>)
    ensures a + b + c + d == a + (b + c + d) == a + (b + c) + d
  {
  }

  lemma CellIsBytes(b: seq<u8>, o: nat, w: nat)
    requires o + w <= |b|
    ensures Encode(Cell(b, o, w), w) == b[o..o + w]
  {
    EncodeDecode(b[o..o + w]);
  }

  /** The bytes BootOptionSetFields computes for the option. */
  function OptionSize(description: seq<u16>, path: seq<u8>, bootType: u32, data: seq<u8>): nat {
    4 + 2 + (2 * |description| + 2) + |path| % TWO_16 + (if IsLinux(bootType) then |data| + 8 else |data|)
  }

  method EmitHead(buffer: array<u8>, attributes: u32, pathLength: u16, description: seq<u16>) returns (next: nat)
    requires buffer.Length >= 8 + 2 * |description|
    modifies buffer
    ensures next == 8 + 2 * |description| && buffer[..next] == Head(attributes, pathLength, description)
  {
    var a, n, s := Encode(attributes, 4), Encode(pathLength, 2), StringBytes(description);
    next := Emit(buffer, 0, a, []);
    assert [] + a == a;
    next := Emit(buffer, next, n, a);
    next := Emit(buffer, next, s, a + n);
  }

  /** BootOptionSetFields: the fields, written one after the other, exactly fill the buffer. */
  method SetFields(attributes: u32, description: seq<u16>, path: seq<u8>, bootType: u32, data: seq<u8>)
    returns (buffer: array<u8>)
    requires IsLinux(bootType) ==> SizesMatch(data)
    ensures fresh(buffer) && buffer.Length == OptionSize(description, path, bootType, data)
    ensures buffer[..] == Serialised(attributes, description, path, bootType, data)
    ensures LaidOut(buffer[..], attributes, description, path, bootType, data)
  {
    buffer := new u8[OptionSize(description, path, bootType, data)];
    var next := EmitHead(buffer, attributes, |path| % TWO_16, description);
    ghost var head := Head(attributes, |path| % TWO_16, description);
    next := Emit(buffer, next, KeptPath(path), head);
    if IsLinux(bootType) {
      next := EmitLinux(buffer, next, bootType, data, head + KeptPath(path));
    } else {
      next := Emit(buffer, next, data, head + KeptPath(path));
    }
    assert buffer[..next] == buffer[..];
    SerialisedLaidOut(attributes, description, path, bootType, data, buffer[..]);
  }

  // ---------------------------------------------------------------------
  // The parser
  // ---------------------------------------------------------------------

  /** The size of the string at offset o with its terminator, when it ends inside the bytes (StrSize). */
  function ScanString(b: seq<u8>, o: nat): (size: Option<nat>)
    requires o <= |b|
    ensures size.Some? ==> o + size.value <= |b| && size.value >= 2
    decreases |b| - o
  {
    if o + 2 > |b| then None
    else if Cell(b, o, 2) == 0 then Some(2)
    else match ScanString(b, o + 2)
      case None => None
      case Some(size) => Some(size + 2)
  }

  /** BDS_LOAD_OPTION after parsing; the description and the path as the bytes they point to. */
  datatype Parsed =
    | Parsed(Attributes: nat, Description: seq<u8>, FilePathList: seq<u8>, OptionalData: Option<seq<u8>>)
    | BadBufferSize
    | Overrun // a string or a path that does not end inside the buffer: the parser reads on after it

  /** BootOptionParseLoadOption. */
  function Parse(b: seq<u8>): Parsed {
    if |b| < 12 then BadBufferSize
    else match ScanString(b, 6)
      case None => Overrun
      case Some(size) =>
        var length := Cell(b, 4, 2);
        var end := 6 + size + length;
        if end > |b| then Overrun
        else Parsed(Cell(b, 0, 4), b[6..6 + size], b[6 + size..end], if end == |b| then None else Some(b[end..]))
  }

  lemma {:induction false} ScanFinds(pre: seq<u8>, s: seq<u16>, post: seq<u8>)
    requires IsString(s)
    ensures ScanString(pre + StringBytes(s) + post, |pre|) == Some(2 * |s| + 2)
    decreases |s|
  {
    var b := pre + StringBytes(s) + post;
    RadixValues();
    if s == [] {
      CharacterAt(pre, 0, post, b);
    } else {
      var rest := StringBytes(s[1..]) + post;
      assert b == pre + Encode(s[0], 2) + rest;
      CharacterAt(pre, s[0], rest, b);
      assert b == pre + Encode(s[0], 2) + StringBytes(s[1..]) + post;
      ScanFinds(pre + Encode(s[0], 2), s[1..], post);
    }
  }

  lemma CharacterAt(pre: seq<u8>, c: u16, post: seq<u8>, b: seq<u8>)
    requires b == pre + Encode(c, 2) + post
    ensures Cell(b, |pre|, 2) == c
  {
    RadixValues();
    assert b[|pre|..|pre| + 2] == Encode(c, 2);
    DecodeEncode(c, 2);
  }

  /** A number stored at the place of its bytes. */
  lemma NumberAt(pre: seq<u8>, v: nat, w: nat, post: seq<u8>, b: seq<u8>)
    requires b == pre + Encode(v, w) + post && v < Radix(w)
    ensures Cell(b, |pre|, w) == v
  {
    assert b[|pre|..|pre| + w] == Encode(v, w);
    DecodeEncode(v, w);
  }

  lemma ScanAt(pre: seq<u8>, s: seq<u16>, post: seq<u8>, b: seq<u8>)
    requires IsString(s) && b == pre + StringBytes(s) + post
    ensures ScanString(b, |pre|) == Some(2 * |s| + 2)
    ensures b[|pre|..|pre| + 2 * |s| + 2] == StringBytes(s)
  {
    ScanFinds(pre, s, post);
  }

  lemma ThreeAndRest(a: seq<u8>, b: seq<u8>, c: seq<u8>, d: seq<u8>, all: seq<u8>)
    requires all == a + b + c + d
    ensures all == [] + a + (b + c + d) && all == a + b + (c + d) && all == (a + b) + c + d
  {
  }

  lemma HeadCells(attributes: u32, n: u16, description: seq<u16>, post: seq<u8>, b: seq<u8>)
    requires b == Head(attributes, n, description) + post && IsString(description)
    ensures Cell(b, 0, 4) == attributes && Cell(b, 4, 2) == n
    ensures ScanString(b, 6) == Some(2 * |description| + 2)
    ensures b[6..8 + 2 * |description|] == StringBytes(description)
  {
    var a, c, s := Encode(attributes, 4), Encode(n, 2), StringBytes(description);
    HeadBytes(attributes, n, description, post, b);
    ThreeAndRest(a, c, s, post, b);
    ScanAt(a + c, description, post, b);
  }

  lemma {:induction false} FieldsBack(attributes: u32, description: seq<u16>, path: seq<u8>, o: seq<u8>, b: seq<u8>)
    requires IsString(description) && |path| % TWO_16 >= 4
    requires b == Head(attributes, |path| % TWO_16, description) + KeptPath(path) + o
    ensures Parse(b) == Parsed(attributes, StringBytes(description), path[..|path| % TWO_16], if o == [] then None else Some(o))
  {
    var head, kept := Head(attributes, |path| % TWO_16, description), KeptPath(path);
    assert b == head + (kept + o);
    HeadCells(attributes, |path| % TWO_16, description, kept + o, b);
    var end := |head| + |kept|;
    assert b[|head|..end] == kept && b[end..] == o;
  }

  /** The fields the parser returns for an option. */
  ghost predicate ParsedAs(p: Parsed, attributes: u32, description: seq<u16>, path: seq<u8>, bootType: u32, data: seq<u8>) {
    && p.Parsed?
    && p.Attributes == attributes
    && |p.Description| == 2 * |description| + 2 && HoldsString(p.Description, 0, description)
    && p.FilePathList == path[..|path| % 0x1_0000]
    && if p.OptionalData.None? then bootType !in {1, 2} && data == []
       else p.OptionalData.value != [] && HoldsData(p.OptionalData.value, 0, bootType, data)
  }

  /** Parsing what was written gives back the attributes, the description, the path, cut to its size
      modulo 64 KB, and the optional data; every device path ends with a node of four bytes. */
  lemma {:induction false} ParsesBack(attributes: u32, description: seq<u16>, path: seq<u8>, bootType: u32, data: seq<u8>,
                                      p: Parsed)
    requires IsString(description) && |path| % TWO_16 >= 4
    requires p == Parse(Serialised(attributes, description, path, bootType, data))
    ensures ParsedAs(p, attributes, description, path, bootType, data)
    ensures |path| < 0x1_0000 ==> p.FilePathList == path
    ensures p.OptionalData == var o := OptionalBytes(bootType, data); if o == [] then None else Some(o)
  {
    var o := OptionalBytes(bootType, data);
    FieldsBack(attributes, description, path, o, Serialised(attributes, description, path, bootType, data));
    StringAt(p.Description, 0, description);
    assert o[0..] == o;
    DataAt(o, 0, bootType, data);
  }

  // ---------------------------------------------------------------------
  // Starting an option
  // ---------------------------------------------------------------------

  /** A string of bytes with its terminator: the first zero byte is the last. */
  predicate IsCString(s: seq<u8>) {
    s != [] && s[|s| - 1] == 0 && forall i :: 0 <= i < |s| - 1 ==> s[i] != 0
  }

  /** The string that starts a run of memory, with its terminator (AsciiStrSize), when it ends there. */
  function ReadString(m: seq<u8>): (r: Option<seq<u8>>)
    ensures r.None? <==> 0 !in m
    ensures r.Some? ==> r.value <= m && IsCString(r.value)
  {
    if m == [] then None
    else if m[0] == 0 then Some([0])
    else match ReadString(m[1..])
      case None => None
      case Some(t) => Some([m[0]] + t)
  }

  /** What BootOptionStart starts. A Linux loader gets a bare pointer to the command line and reads
      the string there; None stands for one that does not end in the memory given. */
  datatype Started =
    | Linux(LoaderType: nat, CmdLine: Option<seq<u8>>, Initrd: Option<seq<u8>>)
    | Loader                                     // an EFI application without arguments
    | Unsupported
    | Application(OptionalData: Option<seq<u8>>) // an EFI application with the raw optional data

  /** The optional data and the memory after it: the reader checks the signature before any size. */
  predicate Readable(beyond: seq<u8>) { |beyond| >= 12 + 2 * TWO_16 }

  /** BootOptionStart on the optional data, as the parser left it. */
  function Start(data: Option<seq<u8>>, beyond: seq<u8>): Started
    requires Readable(beyond)
  {
    match data
    case None => Application(None)
    case Some(d) =>
      var m := d + beyond;
      if Cell(m, 0, 4) != SIGNATURE then Application(data)
      else
        var loaderType := Cell(m, 4, 4);
        if loaderType == 0 then Loader
        else if loaderType == LINUX_ATAG || loaderType == LINUX_FDT then StartLinux(m, loaderType)
        else Unsupported
  }

  function StartLinux(m: seq<u8>, loaderType: nat): Started
    requires |m| >= 12 + 2 * TWO_16
  {
    RadixValues();
    var cmdLineSize, initrdSize := Cell(m, 8, 2), Cell(m, 10, 2);
    var initrd := 12 + cmdLineSize;
    Linux(loaderType, ReadString(m[12..]), if initrdSize > 0 then Some(m[initrd..initrd + initrdSize]) else None)
  }

  /** Whether raw optional data looks like that of a Linux option. */
  predicate Signed(data: seq<u8>, beyond: seq<u8>)
    requires |beyond| >= 4
  {
    (data + beyond)[..4] == Encode(SIGNATURE, 4)
  }

  lemma SignedCell(m: seq<u8>)
    requires |m| >= 4
    ensures Cell(m, 0, 4) == SIGNATURE <==> m[..4] == Encode(SIGNATURE, 4)
  {
    RadixValues();
    assert m[0..4] == m[..4];
    EncodeDecode(m[..4]);
    DecodeEncode(SIGNATURE, 4);
  }

  /** Data that begins with 'a', 'b', 'o', 'd' is started by the loader type behind it: 0 is an application
      without arguments, 1 and 2 are Linux loaders, and all others are refused. Other data is handed to
      the application. */
  lemma StartsByType(d: seq<u8>, beyond: seq<u8>, m: seq<u8>)
    requires Readable(beyond) && m == d + beyond
    ensures m[..4] != [0x61, 0x62, 0x6F, 0x64] ==> Start(Some(d), beyond) == Application(Some(d))
    ensures m[..4] == [0x61, 0x62, 0x6F, 0x64] ==>
              && (Cell(m, 4, 4) == 0 <==> Start(Some(d), beyond) == Loader)
              && (Cell(m, 4, 4) in {1, 2} <==> Start(Some(d), beyond).Linux?)
              && (Cell(m, 4, 4) > 2 <==> Start(Some(d), beyond) == Unsupported)
  {
    SignatureBytes();
    SignedCell(m);
  }

  lemma LinuxCells(bootType: u32, cmdLine: seq<u8>, initrd: seq<u8>, beyond: seq<u8>, m: seq<u8>)
    requires |cmdLine| < TWO_16 && |initrd| < TWO_16
    requires m == LinuxHeader(bootType) + LinuxArguments(cmdLine, initrd) + beyond
    ensures Cell(m, 0, 4) == SIGNATURE && Cell(m, 4, 4) == bootType
    ensures Cell(m, 8, 2) == |cmdLine| && Cell(m, 10, 2) == |initrd|
    ensures m[12..] == cmdLine + initrd + beyond && m[12 + |cmdLine|..12 + |cmdLine| + |initrd|] == initrd
  {
    var a, b, c, d := Encode(SIGNATURE, 4), Encode(bootType, 4), Encode(|cmdLine|, 2), Encode(|initrd|, 2);
    var rest := cmdLine + initrd + beyond;
    RadixValues();
    FourAndRest(a, b, c, d, rest, m) by {
      assert m == a + b + c + d + rest;
    }
    NumberAt([], SIGNATURE, 4, b + c + d + rest, m);
    NumberAt(a, bootType, 4, c + d + rest, m);
    NumberAt(a + b, |cmdLine|, 2, d + rest, m);
    NumberAt(a + b + c, |initrd|, 2, rest, m);
    assert m[12..] == rest;
    assert m[12 + |cmdLine|..12 + |cmdLine| + |initrd|] == rest[|cmdLine|..|cmdLine| + |initrd|] == initrd;
  }

  lemma FourAndRest(a: seq<u8>, b: seq<u8>, c: seq<u8>, d: seq<u8>, rest: seq<u8>, m: seq<u8>)
    requires m == a + b + c + d + rest
    ensures m == [] + a + (b + c + d + rest) && m == a + b + (c + d + rest)
    ensures m == (a + b) + c + (d + rest) && m == (a + b + c) + d + rest
  {
  }

  /** A string is read from memory that starts with it, and only its own bytes are. */
  lemma {:induction false} ReadsString(c: seq<u8>, rest: seq<u8>)
    requires IsCString(c)
    ensures ReadString(c + rest) == Some(c)
  {
    var m := c + rest;
    if |c| == 1 {
      assert c == [0];
    } else {
      assert m[1..] == c[1..] + rest;
      ReadsString(c[1..], rest);
      assert [c[0]] + c[1..] == c;
    }
  }

  /** What is started from the optional data written for a Linux option. */
  lemma StartsLinux(bootType: u32, cmdLine: seq<u8>, initrd: seq<u8>, beyond: seq<u8>, o: seq<u8>)
    requires IsLinux(bootType) && Readable(beyond) && |cmdLine| < TWO_16 && |initrd| < TWO_16
    requires o == LinuxHeader(bootType) + LinuxArguments(cmdLine, initrd)
    ensures Start(Some(o), beyond)
            == Linux(bootType, ReadString(cmdLine + initrd + beyond), if initrd == [] then None else Some(initrd))
  {
    LinuxCells(bootType, cmdLine, initrd, beyond, o + beyond);
  }

  /** The string at the start of the command line is the one written exactly when the first zero byte
      of that is its last. */
  lemma CmdLineReadBack(cmdLine: seq<u8>, initrd: seq<u8>, beyond: seq<u8>)
    ensures ReadString(cmdLine + initrd + beyond) == Some(cmdLine) <==> IsCString(cmdLine)
  {
    if IsCString(cmdLine) {
      ReadsString(cmdLine, initrd + beyond);
      assert cmdLine + (initrd + beyond) == cmdLine + initrd + beyond;
    }
  }

  /** Every Linux option with 16-bit sizes is started with the loader type and initrd path it was
      written with. The command line handed over is the string that starts at its first byte: it is
      the one written if and only if the first zero byte of that is its last. */
  lemma LinuxRoundTrip(attributes: u32, description: seq<u16>, path: seq<u8>, bootType: u32, cmdLine: seq<u8>,
                       initrd: seq<u8>, beyond: seq<u8>)
    requires IsLinux(bootType) && IsString(description) && |path| % TWO_16 >= 4 && Readable(beyond)
    requires |cmdLine| < TWO_16 && |initrd| < TWO_16
    ensures var p := Parse(Serialised(attributes, description, path, bootType, LinuxArguments(cmdLine, initrd)));
            && ParsedAs(p, attributes, description, path, bootType, LinuxArguments(cmdLine, initrd))
            && Start(p.OptionalData, beyond)
               == Linux(bootType, ReadString(cmdLine + initrd + beyond), if initrd == [] then None else Some(initrd))
            && (Start(p.OptionalData, beyond).CmdLine == Some(cmdLine) <==> IsCString(cmdLine))
  {
    var data := LinuxArguments(cmdLine, initrd);
    ParsesBack(attributes, description, path, bootType, data,
               Parse(Serialised(attributes, description, path, bootType, data)));
    StartsLinux(bootType, cmdLine, initrd, beyond, LinuxHeader(bootType) + data);
    CmdLineReadBack(cmdLine, initrd, beyond);
  }

  /** The string is made of the bytes from b on: empty exactly when b is the terminator. */
  predicate BeginsWith(s: Option<seq<u8>>, b: u8) {
    s.Some? ==> s.value != [] && s.value[0] == b && (|s.value| == 1 <==> b == 0)
  }

  lemma FirstOfString(m: seq<u8>)
    requires m != []
    ensures BeginsWith(ReadString(m), m[0])
  {
  }

  lemma EmptyFront(c: seq<u8>, initrd: seq<u8>, beyond: seq<u8>)
    requires |c| == 0
    ensures c + initrd + beyond == initrd + beyond
  {
    assert c + initrd == initrd;
  }

  /** An empty command line, which the default boot entry writes when there are no default arguments,
      is never read back: with an initrd, what is handed over are the bytes of the initrd path, and
      a string that is not empty unless they start with zero. */
  lemma EmptyCmdLineReadsInitrd(bootType: u32, cmdLine: seq<u8>, initrd: seq<u8>, beyond: seq<u8>, o: seq<u8>, m: seq<u8>)
    requires IsLinux(bootType) && Readable(beyond) && |cmdLine| == 0 < |initrd| < TWO_16
    requires o == OptionalBytes(bootType, LinuxArguments(cmdLine, initrd)) && m == initrd + beyond
    ensures Start(Some(o), beyond) == Linux(bootType, ReadString(m), Some(initrd))
    ensures BeginsWith(ReadString(m), initrd[0])
  {
    assert o == LinuxHeader(bootType) + LinuxArguments(cmdLine, initrd);
    StartsLinux(bootType, cmdLine, initrd, beyond, o);
    EmptyFront(cmdLine, initrd, beyond);
    FirstOfString(m);
  }

  /** Any other option is started with its raw optional data if and only if the data, with the memory
      after it, does not begin with the signature of a Linux option. */
  lemma RawRoundTrip(attributes: u32, description: seq<u16>, path: seq<u8>, bootType: u32, data: seq<u8>, beyond: seq<u8>)
    requires !IsLinux(bootType) && IsString(description) && |path| % TWO_16 >= 4 && Readable(beyond)
    ensures var p := Parse(Serialised(attributes, description, path, bootType, data));
            var raw := if data == [] then None else Some(data);
            && ParsedAs(p, attributes, description, path, bootType, data)
            && (Start(p.OptionalData, beyond) == Application(raw) <==> data == [] || !Signed(data, beyond))
  {
    ParsesBack(attributes, description, path, bootType, data,
               Parse(Serialised(attributes, description, path, bootType, data)));
    SignedCell(data + beyond);
  }

  /** The arguments the menu builds: the two sizes, which match the data, the command line and the initrd
      path. */
  lemma ArgumentsMatch(cmdLine: seq<u8>, initrd: seq<u8>)
    requires |cmdLine| < TWO_16 && |initrd| < TWO_16
    ensures SizesMatch(LinuxArguments(cmdLine, initrd))
    ensures Cell(LinuxArguments(cmdLine, initrd), 0, 2) == |cmdLine|
    ensures Cell(LinuxArguments(cmdLine, initrd), 2, 2) == |initrd|
    ensures LinuxArguments(cmdLine, initrd)[4..] == cmdLine + initrd
  {
    var a, b, d := Encode(|cmdLine|, 2), Encode(|initrd|, 2), LinuxArguments(cmdLine, initrd);
    RadixValues();
    assert d == [] + a + (b + cmdLine + initrd);
    NumberAt([], |cmdLine|, 2, b + cmdLine + initrd, d);
    assert d == a + b + (cmdLine + initrd);
    NumberAt(a, |initrd|, 2, cmdLine + initrd, d);
  }
}
