/** `ITextureLoader`: the state every texture loader shares, the per-level
    accessors, the choice of loader by file extension, and the reading of
    the pixel data that follows a file's header.

    Pixel pointers are offsets into the loaded pixel buffer; `None` is a
    null pointer. The file is its size and contents. */
module TextureLoader {
  import opened Common

  /** `TextureFormat(internalFormat)` or `TextureFormat(internalFormat, type)`. */
  datatype TexFormat = TexFormat(internalFormat: nat, typeOverride: Option<nat>)

  datatype Loader = Loader(
    width: int,
    height: int,
    bpp: int,
    headerSize: int,
    dataSize: int,
    mipMapCount: i32,
    mipDataSizes: seq<int>,
    mipDataOffsets: seq<int>,
    pixels: seq<byte>,
    texFormat: Option<TexFormat>,
    fileOpened: bool)

  /** The loaders fill one size and one offset per level when they set a
      level count above one. */
  predicate MipTables(l: Loader)
  {
    l.mipMapCount > 1 ==> |l.mipDataSizes| == l.mipMapCount && |l.mipDataOffsets| == l.mipMapCount
  }

  /** The constructor: an empty single-level texture. */
  function NewLoader(fileOpened: bool): (l: Loader)
    ensures l.width == 0 && l.height == 0 && l.bpp == 0
    ensures l.headerSize == 0 && l.dataSize == 0 && l.mipMapCount == 1
    ensures l.fileOpened == fileOpened && l.texFormat.None?
    ensures MipTables(l)
  {
    Loader(0, 0, 0, 0, 0, 1, [], [], [], None, fileOpened)
  }

  // ---------------------------------------------------------------------
  // Per-level accessors

  /** The range check as written: the level is cast to a signed `int`
      before it is compared with the level count. */
  predicate LevelCheckAsWritten(mipMapCount: int, level: u32)
  {
    ToInt32(level) < mipMapCount
  }

  /** Level 2^31 becomes negative under the cast, passes the range check for any
      positive level count, and lies far past the end of the tables. */
  lemma LevelCheckAdmitsHugeLevel(l: Loader)
    requires MipTables(l) && l.mipMapCount > 1
    ensures LevelCheckAsWritten(l.mipMapCount, 0x8000_0000)
    ensures 0x8000_0000 >= |l.mipDataSizes|
  {
    assert ToInt32(0x8000_0000) == -0x8000_0000;
  }

  /** The intended range check: the unsigned level below the level count. */
  predicate LevelInRange(mipMapCount: int, level: u32)
  {
    level < mipMapCount
  }

  /** The two checks agree exactly on the levels below 2^31. */
  lemma LevelChecksAgreeBelowCast(mipMapCount: i32, level: u32)
    ensures level < 0x8000_0000 ==> (LevelCheckAsWritten(mipMapCount, level) <==> LevelInRange(mipMapCount, level))
    ensures level >= 0x8000_0000 && mipMapCount > 0 ==>
              LevelCheckAsWritten(mipMapCount, level) && !LevelInRange(mipMapCount, level)
  {
  }

  /** `dataSize(level)`, with the intended range check. */
  function DataSize(l: Loader, level: u32): (r: int)
    requires MipTables(l)
    ensures l.mipMapCount > 1 && level < l.mipMapCount ==> r == l.mipDataSizes[level]
    ensures l.mipMapCount > 1 && level >= l.mipMapCount ==> r == 0
    ensures l.mipMapCount <= 1 ==> r == (if level == 0 then l.dataSize else 0)
  {
    if l.mipMapCount > 1 then
      (if LevelInRange(l.mipMapCount, level) then l.mipDataSizes[level] else 0)
    else if level == 0 then l.dataSize
    else 0
  }

  /** `pixels(level)`, with the intended range check. */
  function Pixels(l: Loader, level: u32): (r: Option<int>)
    requires MipTables(l)
    ensures l.mipMapCount > 1 ==>
              (r.Some? <==> level < l.mipMapCount) &&
              (r.Some? ==> r.value == l.mipDataOffsets[level])
    ensures l.mipMapCount <= 1 ==> (r.Some? <==> level == 0) && (r.Some? ==> r.value == 0)
  {
    if l.mipMapCount > 1 then
      (if LevelInRange(l.mipMapCount, level) then Some(l.mipDataOffsets[level]) else None)
    else if level == 0 then Some(0)
    else None
  }

  /** A level has pixel data exactly when it has a non-null pointer; when
      the data size is non-zero the pointer is there. */
  lemma AccessorsAgree(l: Loader, level: u32)
    requires MipTables(l)
    ensures Pixels(l, level).None? ==> DataSize(l, level) == 0
    ensures DataSize(l, level) != 0 ==> Pixels(l, level).Some?
  {
  }

  // ---------------------------------------------------------------------
  // Choosing a loader

  datatype Kind = Dds | Pvr | Ktx | Png | WebP | Pkm

  function Extension(k: Kind): string
  {
    match k
    case Dds => "dds"
    case Pvr => "pvr"
    case Ktx => "ktx"
    case Png => "png"
    case WebP => "webp"
    case Pkm => "pkm"
  }

  /** The build options that compile in the optional loaders. */
  datatype Build = Build(withPng: bool, withWebP: bool, android: bool)

  /** The loaders a build has, in the order they are tried. */
  function Candidates(b: Build): (r: seq<Kind>)
    ensures |r| >= 3 && r[..3] == [Dds, Pvr, Ktx]
  {
    [Dds, Pvr, Ktx] + Optional(Png, b.withPng) + Optional(WebP, b.withWebP) + Optional(Pkm, b.android)
  }

  /** The reference choice: the first candidate whose extension the file
      has. */
  function FirstMatch(candidates: seq<Kind>, hasExtension: string -> bool): (r: Option<Kind>)
    ensures r.Some? ==> r.value in candidates && hasExtension(Extension(r.value))
    ensures r.None? <==> forall k :: k in candidates ==> !hasExtension(Extension(k))
  {
    if |candidates| == 0 then None
    else if hasExtension(Extension(candidates[0])) then Some(candidates[0])
    else FirstMatch(candidates[1..], hasExtension)
  }

  /** `createFromFile`: the loader for the first matching extension;
      `None` is the fatal exit on an unknown extension. */
  function CreateFromFile(b: Build, hasExtension: string -> bool): (r: Option<Kind>)
    ensures r.Some? ==> r.value in Candidates(b) && hasExtension(Extension(r.value))
    ensures r.Some? && r.value != Dds ==> !hasExtension("dds")
    ensures r.None? ==> forall k :: k in Candidates(b) ==> !hasExtension(Extension(k))
  {
    if hasExtension("dds") then Some(Dds)
    else if hasExtension("pvr") then Some(Pvr)
    else if hasExtension("ktx") then Some(Ktx)
    else if b.withPng && hasExtension("png") then Some(Png)
    else if b.withWebP && hasExtension("webp") then Some(WebP)
    else if b.android && hasExtension("pkm") then Some(Pkm)
    else None
  }

  /** The chain of tests is the first match over the build's candidates:
      the chosen loader's extension matches, no earlier candidate's does,
      and the exit happens only when no candidate matches. */
  lemma {:induction false} FirstMatchAppend(a: seq<Kind>, c: seq<Kind>, hasExtension: string -> bool)
    ensures FirstMatch(a + c, hasExtension) ==
              if FirstMatch(a, hasExtension).Some? then FirstMatch(a, hasExtension) else FirstMatch(c, hasExtension)
  {
    if |a| > 0 {
      assert (a + c)[0] == a[0] && (a + c)[1..] == a[1..] + c;
      FirstMatchAppend(a[1..], c, hasExtension);
    } else {
      assert a + c == c;
    }
  }

  /** Tries one optional loader. */
  function Optional(k: Kind, enabled: bool): seq<Kind>
  {
    if enabled then [k] else []
  }

  lemma FirstMatchOptional(k: Kind, enabled: bool, hasExtension: string -> bool)
    ensures FirstMatch(Optional(k, enabled), hasExtension) ==
              if enabled && hasExtension(Extension(k)) then Some(k) else None
  {
    if enabled {
      assert Optional(k, enabled)[1..] == [];
    }
  }

  /** The chain of tests is the first match over the build's candidates:
      the chosen loader's extension matches, no earlier candidate's does,
      and the exit happens only when no candidate matches. */
  lemma CreateFromFileIsFirstMatch(b: Build, hasExtension: string -> bool)
    ensures CreateFromFile(b, hasExtension) == FirstMatch(Candidates(b), hasExtension)
    ensures CreateFromFile(b, hasExtension).None? <==>
              forall k :: k in Candidates(b) ==> !hasExtension(Extension(k))
  {
    var fixed: seq<Kind> := [Dds, Pvr, Ktx];
    assert fixed[1..] == [Pvr, Ktx] && fixed[1..][1..] == [Ktx] && fixed[1..][1..][1..] == [];
    var png, webp, pkm := Optional(Png, b.withPng), Optional(WebP, b.withWebP), Optional(Pkm, b.android);
    assert Candidates(b) == fixed + png + webp + pkm;
    FirstMatchAppend(fixed + png + webp, pkm, hasExtension);
    FirstMatchAppend(fixed + png, webp, hasExtension);
    FirstMatchAppend(fixed, png, hasExtension);
    assert FirstMatch(fixed, hasExtension) ==
      if hasExtension("dds") then Some(Dds)
      else if hasExtension("pvr") then Some(Pvr)
      else if hasExtension("ktx") then Some(Ktx)
      else None;
    FirstMatchOptional(Png, b.withPng, hasExtension);
    FirstMatchOptional(WebP, b.withWebP, hasExtension);
    FirstMatchOptional(Pkm, b.android, hasExtension);
  }

  /** A file with a recognised extension never reaches a loader tried after
      it, whatever else it matches. */
  lemma EarlierExtensionWins(b: Build, hasExtension: string -> bool)
    ensures hasExtension("dds") ==> CreateFromFile(b, hasExtension) == Some(Dds)
    ensures !hasExtension("dds") && hasExtension("pvr") ==> CreateFromFile(b, hasExtension) == Some(Pvr)
    ensures !b.withPng ==> CreateFromFile(b, hasExtension) != Some(Png)
    ensures !b.withWebP ==> CreateFromFile(b, hasExtension) != Some(WebP)
    ensures !b.android ==> CreateFromFile(b, hasExtension) != Some(Pkm)
  {
  }

  // ---------------------------------------------------------------------
  // Reading the pixels

  /** The result of `loadPixels`, and whether it had to open the file. */
  datatype Loaded = Loaded(loader: Loader, opensFile: bool)

  /** `loadPixels(internalFormat, type)`: a type of 0 keeps the format's
      default pixel type; everything after the header is the pixel data. */
  function LoadPixels(l: Loader, internalFormat: nat, pixelType: nat, file: seq<byte>): (r: Loaded)
    requires 0 <= l.headerSize <= |file|
    ensures r.opensFile == !l.fileOpened && r.loader.fileOpened
    ensures r.loader.texFormat == Some(TexFormat(internalFormat, if pixelType == 0 then None else Some(pixelType)))
    ensures r.loader.dataSize == |file| - l.headerSize
    ensures r.loader.pixels == file[l.headerSize..]
    ensures r.loader == l.(texFormat := r.loader.texFormat, dataSize := r.loader.dataSize,
                           pixels := r.loader.pixels, fileOpened := true)
  {
    var format := if pixelType != 0 then TexFormat(internalFormat, Some(pixelType)) else TexFormat(internalFormat, None);
    var dataSize := |file| - l.headerSize;
    var pixels := file[l.headerSize..][..dataSize];
    Loaded(l.(texFormat := Some(format), dataSize := dataSize, pixels := pixels, fileOpened := true), !l.fileOpened)
  }

  /** `loadPixels(internalFormat)`. */
  function LoadPixelsDefault(l: Loader, internalFormat: nat, file: seq<byte>): (r: Loaded)
    requires 0 <= l.headerSize <= |file|
    ensures r == LoadPixels(l, internalFormat, 0, file)
    ensures r.loader.texFormat == Some(TexFormat(internalFormat, None))
  {
    LoadPixels(l, internalFormat, 0, file)
  }

  /** For a single-level texture, level 0 after loading is exactly the file
      body: its pointer is the start of the buffer and its size reaches to
      the end of the file. */
  lemma LoadedLevelZeroIsFileBody(l: Loader, internalFormat: nat, pixelType: nat, file: seq<byte>)
    requires MipTables(l) && l.mipMapCount <= 1
    requires 0 <= l.headerSize <= |file|
    ensures var m := LoadPixels(l, internalFormat, pixelType, file).loader;
            && MipTables(m)
            && Pixels(m, 0) == Some(0)
            && DataSize(m, 0) == |m.pixels|
            && m.pixels[..DataSize(m, 0)] == file[l.headerSize..]
  {
  }
}
