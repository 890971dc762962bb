/**
 * The HSI Raw ("mhwanh") decoder of the raw2png converter.
 *
 * Layout of a file, as the converter reads it:
 *   0x00  6 bytes        signature "mhwanh"
 *   0x08  2 bytes        width, big-endian
 *   0x0A  2 bytes        height, big-endian
 *   0x0C  2 bytes        palette colour count, big-endian
 *   0x20  768 bytes      palette (only when the colour count is non-zero)
 *   then  width*height   palette indices, or (no palette) all remaining bytes
 *                        as height*width*3 RGB bytes
 *
 * `DecodeSpec` states the result by fixed offsets; `Decode` is the converter's
 * step-by-step walk through a `Reader` and is proved to agree with it.
 */
module Raw2Png {
  import opened ByteReader
  import PosixPath

  const Signature: seq<byte> := [0x6D, 0x68, 0x77, 0x61, 0x6E, 0x68]  // "mhwanh"
  const WidthOffset: nat := 0x8
  const HeightOffset: nat := 0xA
  const ColorsOffset: nat := 0xC
  /** Image data always starts here; bytes 0x0E..0x1F are never looked at. */
  const PayloadOffset: nat := 0x20
  /** 256 RGB triplets. */
  const PaletteSize: nat := 768

  datatype Option<T> = None | Some(value: T)

  /** Why a conversion stops without an image. */
  datatype Failure =
    | BadSignature        // the first six bytes are not "mhwanh"
    | NotEnoughImageData  // Image.frombytes got fewer than width*height index bytes
    | CannotReshape       // the RGB bytes do not form a height x width x 3 array

  datatype Result<T> = Ok(value: T) | Err(failure: Failure)

  /** The pixel plane: palette indices with their palette, or direct RGB triplets. */
  datatype Plane =
    | Indexed(palette: seq<byte>, indices: seq<byte>)
    | DirectRGB(rgb: seq<byte>)

  datatype Picture = Picture(width: nat, height: nat, plane: Plane)

  datatype Header = Header(width: nat, height: nat, colors: nat)

  /** The number of pixels of a `width` by `height` image. */
  function Area(width: nat, height: nat): nat
  {
    width * height
  }

  /**
   * The outcome of one decode: the bytes dumped to the `.pal` file (written as
   * soon as the palette branch is taken, before the index data is checked) and
   * the picture handed to the PNG encoder, or why there is none.
   */
  datatype Decoded = Decoded(paletteDump: Option<seq<byte>>, picture: Result<Picture>)

  predicate HasSignature(data: seq<byte>)
  {
    |data| >= |Signature| && data[..|Signature|] == Signature
  }

  /** The three header fields, each read from whatever part of its two bytes exists. */
  function ReadHeader(data: seq<byte>): (h: Header)
    ensures h.width < 0x1_0000 && h.height < 0x1_0000 && h.colors < 0x1_0000
  {
    FromBytesBEShort(Window(data, WidthOffset, 2));
    FromBytesBEShort(Window(data, HeightOffset, 2));
    FromBytesBEShort(Window(data, ColorsOffset, 2));
    Header(FromBytesBE(Window(data, WidthOffset, 2)),
           FromBytesBE(Window(data, HeightOffset, 2)),
           FromBytesBE(Window(data, ColorsOffset, 2)))
  }

  /** The decoder's result, stated by the fixed offsets of the format. */
  function DecodeSpec(data: seq<byte>): (d: Decoded)
    ensures d.picture.Ok? ==> HasSignature(data)
    ensures d.picture.Ok? ==> d.picture.value.width < 0x1_0000 && d.picture.value.height < 0x1_0000
    ensures d.picture.Ok? && d.picture.value.plane.Indexed? ==>
      var p := d.picture.value;
      |p.plane.indices| == Area(p.width, p.height) && d.paletteDump == Some(p.plane.palette)
    ensures d.picture.Ok? && d.picture.value.plane.DirectRGB? ==>
      var p := d.picture.value;
      |p.plane.rgb| == Area(p.width, p.height) * 3 && d.paletteDump == None
    ensures d.paletteDump.Some? ==> |d.paletteDump.value| <= PaletteSize
  {
    if !HasSignature(data) then Decoded(None, Err(BadSignature)) else DecodePayload(data, ReadHeader(data))
  }

  /** What is decoded after a correct signature, given the header `h`. */
  function DecodePayload(data: seq<byte>, h: Header): Decoded
  {
    if h.colors != 0 then
      var palette := Window(data, PayloadOffset, PaletteSize);
      var indices := Window(data, PayloadOffset + PaletteSize, Area(h.width, h.height));
      Decoded(Some(palette),
              if |indices| == Area(h.width, h.height)
              then Ok(Picture(h.width, h.height, Indexed(palette, indices)))
              else Err(NotEnoughImageData))
    else
      var rgb := Tail(data, PayloadOffset);
      Decoded(None,
              if |rgb| == Area(h.width, h.height) * 3
              then Ok(Picture(h.width, h.height, DirectRGB(rgb)))
              else Err(CannotReshape))
  }

  /**
   * The converter's decode: read the signature, jump to the header, read the
   * three fields, jump to the payload, then take the palette branch or the
   * RGB branch, exactly as the cursor moves.
   */
  method Decode(data: seq<byte>) returns (d: Decoded)
    ensures d == DecodeSpec(data)
  {
    var r := new Reader(data);
    var tag := r.Read(|Signature|);
    if tag != Signature {
      return Decoded(None, Err(BadSignature));
    }
    r.Seek(WidthOffset);
    var widthBytes := r.Read(2);
    var width := FromBytesBE(widthBytes);
    WindowsAdjoin(data, WidthOffset, 2, 2);
    var heightBytes := r.Read(2);
    var height := FromBytesBE(heightBytes);
    WindowsAdjoin(data, HeightOffset, 2, 2);
    var colorBytes := r.Read(2);
    var colors := FromBytesBE(colorBytes);
    ghost var header := Header(width, height, colors);
    r.Seek(PayloadOffset);
    if colors != 0 {
      var palette := r.Read(PaletteSize);
      WindowsAdjoin(data, PayloadOffset, PaletteSize, Area(width, height));
      var indices := r.Read(Area(width, height));
      if |indices| == Area(width, height) {
        d := Decoded(Some(palette), Ok(Picture(width, height, Indexed(palette, indices))));
      } else {
        d := Decoded(Some(palette), Err(NotEnoughImageData));
      }
    } else {
      var rgb := r.ReadAll();
      if |rgb| == Area(width, height) * 3 {
        d := Decoded(None, Ok(Picture(width, height, DirectRGB(rgb))));
      } else {
        d := Decoded(None, Err(CannotReshape));
      }
    }
    assert d == DecodePayload(data, header);
    assert header == ReadHeader(data);
  }

  /**
   * Only the signature decides whether decoding is refused outright: with a
   * wrong or missing signature nothing else is read and the result is always
   * the same, and with a correct one that failure never occurs.
   */
  lemma SignatureGate(data: seq<byte>)
    ensures !HasSignature(data) <==> DecodeSpec(data) == Decoded(None, Err(BadSignature))
    ensures !HasSignature(data) <==> DecodeSpec(data).picture == Err(BadSignature)
  {
  }

  /**
   * A header field is the big-endian value of the bytes at its offset, and a
   * short file silently gives the single byte present, or 0.
   */
  lemma HeaderFieldBytes(data: seq<byte>, offset: nat)
    ensures FromBytesBE(Window(data, offset, 2)) ==
      if |data| >= offset + 2 then 256 * (data[offset] as int) + data[offset + 1]
      else if |data| == offset + 1 then data[offset] as int
      else 0
  {
    var w := Window(data, offset, 2);
    FromBytesBEShort(w);
    if |data| >= offset + 2 {
      assert w == [data[offset], data[offset + 1]];
    } else if |data| == offset + 1 {
      assert w == [data[offset]];
    } else {
      assert w == [];
    }
  }

  /** The header fields of a complete header. */
  lemma HeaderFields(data: seq<byte>)
    requires |data| >= ColorsOffset + 2
    ensures ReadHeader(data).width == 256 * (data[8] as int) + data[9]
    ensures ReadHeader(data).height == 256 * (data[10] as int) + data[11]
    ensures ReadHeader(data).colors == 256 * (data[12] as int) + data[13]
  {
    HeaderFieldBytes(data, WidthOffset);
    HeaderFieldBytes(data, HeightOffset);
    HeaderFieldBytes(data, ColorsOffset);
  }

  /** Two inputs that differ at most in bytes 6-7 and in the reserved bytes 0x0E..0x1F. */
  predicate SameOutsideReserved(a: seq<byte>, b: seq<byte>)
  {
    && |a| == |b|
    && (forall i :: 0 <= i < |a| && (i < 6 || 8 <= i < 14 || i >= PayloadOffset) ==> a[i] == b[i])
  }

  /** Bytes 6-7 and the reserved header space never change what is decoded. */
  lemma ReservedBytesIgnored(a: seq<byte>, b: seq<byte>)
    requires SameOutsideReserved(a, b)
    ensures DecodeSpec(a) == DecodeSpec(b)
  {
    HeaderIgnoresReserved(a, b);
    if HasSignature(a) {
      var h := ReadHeader(a);
      forall i | PayloadOffset <= i < |a|
        ensures a[i] == b[i]
      {
      }
      WindowsAgree(a, b, PayloadOffset, PaletteSize);
      WindowsAgree(a, b, PayloadOffset + PaletteSize, Area(h.width, h.height));
      assert Tail(a, PayloadOffset) == Tail(b, PayloadOffset);
    }
  }

  lemma HeaderIgnoresReserved(a: seq<byte>, b: seq<byte>)
    requires SameOutsideReserved(a, b)
    ensures HasSignature(a) == HasSignature(b)
    ensures ReadHeader(a) == ReadHeader(b)
  {
    forall i | 0 <= i < 6 && i < |a|
      ensures a[i] == b[i]
    {
    }
    WindowsAgree(a, b, 0, 6);
    if |a| >= 6 {
      assert a[..6] == Window(a, 0, 6) && b[..6] == Window(b, 0, 6);
    }
    forall i | 8 <= i < 14 && i < |a|
      ensures a[i] == b[i]
    {
    }
    WindowsAgree(a, b, WidthOffset, 2);
    WindowsAgree(a, b, HeightOffset, 2);
    WindowsAgree(a, b, ColorsOffset, 2);
  }

  /**
   * The palette branch: the palette is whatever of bytes 0x20..0x31F exists and
   * is dumped in every case; the picture exists exactly when width*height
   * index bytes follow the full palette (or none are needed), and it holds
   * exactly those bytes.
   */
  lemma IndexedBranch(data: seq<byte>)
    requires HasSignature(data) && ReadHeader(data).colors != 0
    ensures var d := DecodeSpec(data);
      var n := Area(ReadHeader(data).width, ReadHeader(data).height);
      && d.paletteDump == Some(data[Min(PayloadOffset, |data|)..Min(PayloadOffset + PaletteSize, |data|)])
      && (d.picture.Ok? <==> n == 0 || |data| >= PayloadOffset + PaletteSize + n)
      && (d.picture.Err? ==> d.picture.failure == NotEnoughImageData)
      && (d.picture.Ok? ==>
            && d.picture.value.plane.Indexed?
            && d.picture.value.plane.indices ==
                 if n == 0 then [] else data[PayloadOffset + PaletteSize..PayloadOffset + PaletteSize + n])
  {
  }

  /**
   * The RGB branch: no palette; the picture exists exactly when the bytes
   * from 0x20 to the end number height*width*3, and it holds all of them.
   */
  lemma DirectBranch(data: seq<byte>)
    requires HasSignature(data) && ReadHeader(data).colors == 0
    ensures var d := DecodeSpec(data);
      var h := ReadHeader(data);
      var available := if |data| >= PayloadOffset then |data| - PayloadOffset else 0;
      && d.paletteDump == None
      && (d.picture.Ok? <==> available == Area(h.width, h.height) * 3)
      && (d.picture.Err? ==> d.picture.failure == CannotReshape)
      && (d.picture.Ok? ==> d.picture.value.plane == DirectRGB(data[Min(PayloadOffset, |data|)..]))
  {
    var h := ReadHeader(data);
    var rgb := Tail(data, PayloadOffset);
    assert DecodeSpec(data) == Decoded(None,
      if |rgb| == Area(h.width, h.height) * 3 then Ok(Picture(h.width, h.height, DirectRGB(rgb))) else Err(CannotReshape));
  }

  /** Bytes after the index data of a fully decoded palette image are ignored. */
  lemma IndexedIgnoresTrailing(data: seq<byte>, extra: seq<byte>)
    requires DecodeSpec(data).picture.Ok? && DecodeSpec(data).picture.value.plane.Indexed?
    requires |DecodeSpec(data).picture.value.plane.palette| == PaletteSize
    ensures DecodeSpec(data + extra) == DecodeSpec(data)
  {
    var h := ReadHeader(data);
    var n := Area(h.width, h.height);
    assert |data| >= PayloadOffset + PaletteSize + n;
    WindowOfPrefix(data, extra, 0, |Signature|);
    assert (data + extra)[..6] == data[..6];
    WindowOfPrefix(data, extra, WidthOffset, 2);
    WindowOfPrefix(data, extra, HeightOffset, 2);
    WindowOfPrefix(data, extra, ColorsOffset, 2);
    assert ReadHeader(data + extra) == h;
    WindowOfPrefix(data, extra, PayloadOffset, PaletteSize);
    WindowOfPrefix(data, extra, PayloadOffset + PaletteSize, n);
  }

  /** An RGB image followed by any further byte no longer reshapes. */
  lemma DirectRejectsTrailing(data: seq<byte>, extra: seq<byte>)
    requires DecodeSpec(data).picture.Ok? && DecodeSpec(data).picture.value.plane.DirectRGB?
    requires |data| >= PayloadOffset && extra != []
    ensures DecodeSpec(data + extra).picture == Err(CannotReshape)
  {
    WindowOfPrefix(data, extra, 0, |Signature|);
    assert (data + extra)[..6] == data[..6];
    WindowOfPrefix(data, extra, WidthOffset, 2);
    WindowOfPrefix(data, extra, HeightOffset, 2);
    WindowOfPrefix(data, extra, ColorsOffset, 2);
    assert ReadHeader(data + extra) == ReadHeader(data);
  }

  /** A 2x2 RGB file: twelve pixel bytes after the header decode verbatim. */
  lemma DirectExample(pixels: seq<byte>)
    requires |pixels| == 12
    ensures var data := Signature + [0, 0] + [0, 2, 0, 2, 0, 0] + seq(18, _ => 0) + pixels;
      DecodeSpec(data) == Decoded(None, Ok(Picture(2, 2, DirectRGB(pixels))))
  {
    var data := Signature + [0, 0] + [0, 2, 0, 2, 0, 0] + seq(18, _ => 0) + pixels;
    assert data[..6] == Signature;
    HeaderFields(data);
    assert data[PayloadOffset..] == pixels;
  }

  /** A 2x2 palette file with four zero indices keeps the palette and the indices. */
  lemma IndexedExample(palette: seq<byte>)
    requires |palette| == PaletteSize
    ensures var data := Signature + [0, 0] + [0, 2, 0, 2, 0, 1] + seq(18, _ => 0) + palette + [0, 0, 0, 0];
      DecodeSpec(data) == Decoded(Some(palette), Ok(Picture(2, 2, Indexed(palette, [0, 0, 0, 0]))))
  {
    var data := Signature + [0, 0] + [0, 2, 0, 2, 0, 1] + seq(18, _ => 0) + palette + [0, 0, 0, 0];
    assert data[..6] == Signature;
    HeaderFields(data);
    assert data[PayloadOffset..PayloadOffset + PaletteSize] == palette;
    assert data[PayloadOffset + PaletteSize..PayloadOffset + PaletteSize + 4] == [0, 0, 0, 0];
  }

  /** A file written by `main`: the raw palette, or the decoded picture as a PNG. */
  datatype Artifact =
    | PaletteFile(name: string, content: seq<byte>)
    | PngFile(name: string, picture: Picture)

  /**
   * The files `main` writes, in order, when the palette file is called
   * `palName` and the picture file `pngName`: the `.pal` dump whenever the
   * palette branch is taken, then the `.png` when a picture was decoded.
   */
  function Written(palName: string, pngName: string, d: Decoded): seq<Artifact>
  {
    (match d.paletteDump
     case Some(pal) => [PaletteFile(palName, pal)]
     case None => [])
    + (match d.picture
       case Ok(p) => [PngFile(pngName, p)]
       case Err(_) => [])
  }

  /**
   * The files `main` writes for the input at `path`, both named after it: at
   * most two, and none exactly when no palette was dumped and no picture decoded.
   */
  function Outputs(path: string, d: Decoded): (files: seq<Artifact>)
    ensures |files| <= 2
    ensures files == [] <==> d.paletteDump.None? && d.picture.Err?
  {
    Written(PosixPath.FilenameGen(path, "pal"), PosixPath.FilenameGen(path, "png"), d)
  }

  /** A palette is dumped exactly when the signature is right and the colour count is non-zero. */
  lemma PaletteDumpedIff(data: seq<byte>)
    ensures DecodeSpec(data).paletteDump.Some? <==> HasSignature(data) && ReadHeader(data).colors != 0
  {
    if HasSignature(data) {
      assert DecodeSpec(data) == DecodePayload(data, ReadHeader(data));
    }
  }

  /**
   * A palette file is written exactly when a palette was dumped, and then
   * first; a picture file exactly when a picture was decoded, and then last.
   */
  lemma WrittenOrder(palName: string, pngName: string, d: Decoded)
    ensures var files := Written(palName, pngName, d);
      && ((exists i :: 0 <= i < |files| && files[i].PaletteFile?) <==> d.paletteDump.Some?)
      && ((exists i :: 0 <= i < |files| && files[i].PngFile?) <==> d.picture.Ok?)
      && (forall i :: 0 <= i < |files| && files[i].PaletteFile? ==> i == 0 && files[i].name == palName)
      && (forall i :: 0 <= i < |files| && files[i].PngFile? ==> i == |files| - 1 && files[i].name == pngName)
  {
    var files := Written(palName, pngName, d);
    if d.paletteDump.Some? {
      assert files[0].PaletteFile?;
    }
    if d.picture.Ok? {
      assert files[|files| - 1].PngFile?;
    }
  }

  /**
   * The palette file holds the dumped bytes (also when no picture follows)
   * and the picture file the decoded picture.
   */
  lemma WrittenContents(palName: string, pngName: string, d: Decoded)
    ensures var files := Written(palName, pngName, d);
      && (forall i :: 0 <= i < |files| && files[i].PaletteFile? ==> d.paletteDump.Some? && files[i].content == d.paletteDump.value)
      && (forall i :: 0 <= i < |files| && files[i].PngFile? ==> d.picture.Ok? && files[i].picture == d.picture.value)
  {
  }

  /**
   * `main` writes a palette file exactly when a palette was dumped, and then
   * first; a PNG exactly when a picture was decoded, and then last; the names
   * come from `filename_gen` on the input path.
   */
  lemma OutputsWritten(path: string, d: Decoded)
    ensures var files := Outputs(path, d);
      && ((exists i :: 0 <= i < |files| && files[i].PaletteFile?) <==> d.paletteDump.Some?)
      && ((exists i :: 0 <= i < |files| && files[i].PngFile?) <==> d.picture.Ok?)
      && (forall i :: 0 <= i < |files| && files[i].PaletteFile? ==> i == 0 && files[i].name == PosixPath.FilenameGen(path, "pal"))
      && (forall i :: 0 <= i < |files| && files[i].PngFile? ==> i == |files| - 1 && files[i].name == PosixPath.FilenameGen(path, "png"))
  {
    WrittenOrder(PosixPath.FilenameGen(path, "pal"), PosixPath.FilenameGen(path, "png"), d);
  }

  /**
   * The `.pal` file holds the dumped bytes, also when no picture follows, and
   * the PNG the decoded picture.
   */
  lemma OutputsContents(path: string, d: Decoded)
    ensures var files := Outputs(path, d);
      && (forall i :: 0 <= i < |files| && files[i].PaletteFile? ==> d.paletteDump.Some? && files[i].content == d.paletteDump.value)
      && (forall i :: 0 <= i < |files| && files[i].PngFile? ==> d.picture.Ok? && files[i].picture == d.picture.value)
  {
    WrittenContents(PosixPath.FilenameGen(path, "pal"), PosixPath.FilenameGen(path, "png"), d);
  }

  /** For a decoded file, the `.pal` file holds the very palette the indexed PNG was given. */
  lemma OutputsShareThePalette(path: string, data: seq<byte>)
    ensures var files := Outputs(path, DecodeSpec(data));
      forall i, j ::
        (0 <= i < |files| && 0 <= j < |files| && files[i].PaletteFile? && files[j].PngFile? && files[j].picture.plane.Indexed?)
        ==> files[i].content == files[j].picture.plane.palette
  {
    OutputsContents(path, DecodeSpec(data));
  }
}
