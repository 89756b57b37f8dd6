/**
 * MIME types of media items (src/data/mime.ts; src/render/mime.ts holds a
 * copy of the same tables and lookup). A type is `image` or `video`; the
 * subtypes of each are fixed lists, and the extension tables map file
 * extensions to subtypes.
 */
module Mime {
  import opened Wrappers
  import opened Paths

  datatype MimeType = Image | Video

  datatype Subtype = Apng | Bmp | Gif | Jpeg | Png | SvgXml | Tiff | Webp | XIcon | Mpeg4 | Webm

  /** `imageSubtypes` and `videoSubtypes` */
  predicate IsImageSubtype(s: Subtype)
  {
    !(s.Mpeg4? || s.Webm?)
  }

  /** `Data`: an image with an image subtype or a video with a video subtype. */
  datatype Data = Data(kind: MimeType, subtype: Subtype)

  predicate ValidData(d: Data)
  {
    d.kind.Image? <==> IsImageSubtype(d.subtype)
  }

  /** The type's name: five letters, no `/`, and `image` only for images. */
  function TypeName(t: MimeType): (r: string)
    ensures |r| == 5 && forall j | 0 <= j < 5 :: r[j] != '/'
    ensures r == "image" <==> t.Image?
  {
    match t
    case Image => "image"
    case Video => "video"
  }

  /** The subtype's name: not empty, and without `/`, so that `type/subtype` splits back. */
  function SubtypeName(s: Subtype): (r: string)
    ensures r != [] && forall j | 0 <= j < |r| :: r[j] != '/'
  {
    match s
    case Apng => "apng"
    case Bmp => "bmp"
    case Gif => "gif"
    case Jpeg => "jpeg"
    case Png => "png"
    case SvgXml => "svg+xml"
    case Tiff => "tiff"
    case Webp => "webp"
    case XIcon => "x-icon"
    case Mpeg4 => "mpeg4"
    case Webm => "webm"
  }

  /** The `Subtype` literal union, from its name back to the subtype. */
  function SubtypeFromName(name: string): (r: Option<Subtype>)
    ensures r.Some? ==> SubtypeName(r.value) == name
  {
    if name == "apng" then Some(Apng)
    else if name == "bmp" then Some(Bmp)
    else if name == "gif" then Some(Gif)
    else if name == "jpeg" then Some(Jpeg)
    else if name == "png" then Some(Png)
    else if name == "svg+xml" then Some(SvgXml)
    else if name == "tiff" then Some(Tiff)
    else if name == "webp" then Some(Webp)
    else if name == "x-icon" then Some(XIcon)
    else if name == "mpeg4" then Some(Mpeg4)
    else if name == "webm" then Some(Webm)
    else None
  }

  /** Every subtype's name reads back as that subtype, so names are unambiguous. */
  lemma SubtypeNameRoundTrip(s: Subtype)
    ensures SubtypeFromName(SubtypeName(s)) == Some(s)
  {
  }

  /** `toString`: `type/subtype`. */
  function ToString(d: Data): (r: string)
    ensures |r| > 6 && r[5] == '/'
    ensures r[..5] == TypeName(d.kind) && r[6..] == SubtypeName(d.subtype)
  {
    var r := TypeName(d.kind) + "/" + SubtypeName(d.subtype);
    assert r[..5] == TypeName(d.kind);
    assert r[6..] == SubtypeName(d.subtype);
    r
  }

  /** Distinct MIME data render to distinct strings. */
  lemma ToStringInjective(a: Data, b: Data)
    requires ToString(a) == ToString(b)
    ensures a == b
  {
    assert TypeName(a.kind) == ToString(a)[..5] == TypeName(b.kind);
    assert TypeName(a.kind)[0] == TypeName(b.kind)[0];
    SubtypeNameRoundTrip(a.subtype);
    SubtypeNameRoundTrip(b.subtype);
  }

  /** `imageExtensions.get(ext)` */
  function ImageExtension(ext: string): (r: Option<Subtype>)
    ensures r.Some? ==> IsImageSubtype(r.value)
  {
    if ext == "apng" then Some(Apng)
    else if ext == "bmp" then Some(Bmp)
    else if ext == "gif" then Some(Gif)
    else if ext == "jpeg" then Some(Jpeg)
    else if ext == "jpg" then Some(Jpeg)
    else if ext == "png" then Some(Png)
    else if ext == "svg" then Some(SvgXml)
    else if ext == "tiff" then Some(Tiff)
    else if ext == "webp" then Some(Webp)
    else if ext == "ico" then Some(XIcon)
    else None
  }

  /** `videoExtensions.get(ext)` */
  function VideoExtension(ext: string): (r: Option<Subtype>)
    ensures r.Some? ==> !IsImageSubtype(r.value)
  {
    if ext == "mp4" then Some(Mpeg4)
    else if ext == "webm" then Some(Webm)
    else None
  }

  /** The lookup key of a path: its extension, lower-cased, without the leading `.`. */
  function ExtKey(path: string): (r: string)
    ensures forall j | 0 <= j < |r| :: r[j] != '.'
  {
    var ext := Lower(Extname(path));
    if |ext| > 0 && ext[0] == '.' then ext[1..] else ext
  }

  /** The table lookup of `fromExt`: the video table first, then the image table. */
  function Lookup(ext: string): (r: Option<Data>)
    ensures r.Some? ==> ValidData(r.value)
    ensures VideoExtension(ext).Some? ==> r == Some(Data(Video, VideoExtension(ext).value))
    ensures r.None? <==> VideoExtension(ext).None? && ImageExtension(ext).None?
  {
    var video := VideoExtension(ext);
    if video.Some? then Some(Data(Video, video.value))
    else
      var image := ImageExtension(ext);
      if image.Some? then Some(Data(Image, image.value)) else None
  }

  /** `fromExt` */
  function FromExt(path: string): (r: Option<Data>)
    ensures r.Some? ==> ValidData(r.value)
  {
    Lookup(ExtKey(path))
  }

  /** The extensions that name each MIME type, as an independent reverse table. */
  function ExtensionsOf(d: Data): set<string>
  {
    if !ValidData(d) then {}
    else match d.subtype
      case Jpeg => {"jpeg", "jpg"}
      case SvgXml => {"svg"}
      case XIcon => {"ico"}
      case Mpeg4 => {"mp4"}
      case _ => {SubtypeName(d.subtype)}
  }

  /** The lookup finds exactly the MIME type whose extensions include the key. */
  lemma LookupAgreesWithTable(ext: string, d: Data)
    ensures Lookup(ext) == Some(d) <==> ext in ExtensionsOf(d)
  {
    match d.subtype {
      case Jpeg =>
      case SvgXml =>
      case XIcon =>
      case Mpeg4 =>
      case _ =>
    }
  }

  /** `fromExt` finds exactly the MIME type whose extensions include the path's lower-cased extension. */
  lemma FromExtAgreesWithTable(path: string, d: Data)
    ensures FromExt(path) == Some(d) <==> ExtKey(path) in ExtensionsOf(d)
  {
    LookupAgreesWithTable(ExtKey(path), d);
  }

  /** A name without `/` whose last `.` is at `k`, not first, has the lower-cased rest as its lookup key. */
  lemma ExtKeyOfPlainName(name: string, k: int)
    requires forall j | 0 <= j < |name| :: name[j] != '/'
    requires 0 < k < |name| && name[k] == '.' && name != ".."
    requires forall j | k < j < |name| :: name[j] != '.'
    ensures ExtKey(name) == Lower(name[k + 1..])
  {
    LastIndexOfIs(name, '/', -1);
    assert name[0..] == name;
    LastIndexOfIs(name, '.', k);
    assert Lower(name[k..])[1..] == Lower(name[k + 1..]);
  }

  /** `fromData` always gives `undefined`: content sniffing is not implemented. */
  function FromData(data: seq<bv8>): (r: Option<Data>)
    ensures r == None
  {
    None
  }
}
