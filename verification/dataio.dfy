/** The data objects saved in and loaded from a displot archive: a marker
    with its position, radius and confidence, and the per-image record of
    path, metadata, editor state and markers, each with its dictionary
    form; the image dimensions; and the choice of loader by file extension.
    File, archive and image reading are not part of this model: they are
    the `_io` helpers the dispatch hands over to. */
module DataIO {
  import opened Wrappers
  import opened Text

  /** The Python values the dictionaries hold, as far as the model needs to
      tell them apart. */
  datatype Val =
    | Int(i: int)
    | Real(r: real)
    | Str(s: string)
    | NoneVal
    | List(items: seq<Val>)
    | Dict(entries: map<string, Val>)

  // ---------------------------------------------------------------------
  // DisplotDataFeature

  /** The four exported attributes, and whatever other attributes
      `fromDict` has set on the object. */
  datatype Marker = Marker(x: Val, y: Val, r: Val, confidence: Val, extra: map<string, Val>)

  function MarkerKeys(): set<string> {
    {"x", "y", "r", "confidence"}
  }

  /** `DisplotDataFeature(x, y)`: radius 10 and confidence 1. */
  function NewMarker(x: Val, y: Val): (m: Marker)
    ensures m.x == x && m.y == y && m.r == Int(10) && m.confidence == Int(1) && m.extra == map[]
  {
    Marker(x, y, Int(10), Int(1), map[])
  }

  /** `DisplotDataFeature()`: the defaults x = y = 0. */
  function DefaultMarker(): (m: Marker)
    ensures m == NewMarker(Int(0), Int(0))
  {
    NewMarker(Int(0), Int(0))
  }

  /** `toDict()`: exactly the keys x, y, r and confidence. */
  function MarkerToDict(m: Marker): (d: map<string, Val>)
    ensures d.Keys == MarkerKeys()
    ensures d["x"] == m.x && d["y"] == m.y && d["r"] == m.r && d["confidence"] == m.confidence
  {
    map["x" := m.x, "y" := m.y, "r" := m.r, "confidence" := m.confidence]
  }

  function Lookup(d: map<string, Val>, k: string, otherwise: Val): Val {
    if k in d then d[k] else otherwise
  }

  /** `fromDict(d)`: every key of `d` becomes an attribute; a key that is
      absent leaves that attribute as it was. */
  function MarkerFromDict(m: Marker, d: map<string, Val>): (m': Marker)
    ensures forall k :: k in MarkerKeys() && k !in d ==> MarkerToDict(m')[k] == MarkerToDict(m)[k]
    ensures forall k :: k in MarkerKeys() && k in d ==> MarkerToDict(m')[k] == d[k]
    ensures forall k :: k !in MarkerKeys() ==> (k in m'.extra <==> k in m.extra || k in d)
  {
    Marker(Lookup(d, "x", m.x), Lookup(d, "y", m.y), Lookup(d, "r", m.r),
           Lookup(d, "confidence", m.confidence),
           m.extra + map k | k in d && k !in MarkerKeys() :: d[k])
  }

  /** Reading back a marker's dictionary into a fresh marker restores its
      four exported attributes. */
  lemma MarkerRoundTrip(m: Marker)
    ensures MarkerToDict(MarkerFromDict(DefaultMarker(), MarkerToDict(m))) == MarkerToDict(m)
    ensures var m' := MarkerFromDict(DefaultMarker(), MarkerToDict(m));
      m'.x == m.x && m'.y == m.y && m'.r == m.r && m'.confidence == m.confidence && m'.extra == map[]
  {
    var m' := MarkerFromDict(DefaultMarker(), MarkerToDict(m));
    assert (map k | k in MarkerToDict(m) && k !in MarkerKeys() :: MarkerToDict(m)[k]) == map[];
  }

  // ---------------------------------------------------------------------
  // DisplotData

  /** `image` (only its shape matters here, and it may be missing),
      `image_path`, `image_meta`, `markers` and `editor_data`. */
  datatype Data = Data(image: Option<seq<nat>>, path: Val, meta: Val, markers: seq<Marker>, editor: Val)

  /** `DisplotData(image, path, meta)`: no markers, empty editor data. */
  function NewData(image: Option<seq<nat>>, path: Val, meta: Val): (d: Data)
    ensures d.markers == [] && d.editor == Dict(map[])
    ensures d.image == image && d.path == path && d.meta == meta
  {
    Data(image, path, meta, [], Dict(map[]))
  }

  datatype DataError =
    | NoImage          // `None.shape`: AttributeError
    | ShapeTooShort    // `shape[i]` past the array's dimensions: IndexError
    | MissingKey(key: string)
    | NotAList         // `markers` is not a list
    | NotADict         // a marker is not a dictionary

  function Dimension(d: Data, axis: nat): (r: Result<nat, DataError>)
    ensures r.Success? <==> d.image.Some? && axis < |d.image.value|
    ensures r.Success? ==> r.value == d.image.value[axis]
  {
    if d.image.None? then Failure(NoImage)
    else if axis >= |d.image.value| then Failure(ShapeTooShort)
    else Success(d.image.value[axis])
  }

  /** `image_width`, also `iw`: the array's second dimension. */
  function ImageWidth(d: Data): (r: Result<nat, DataError>)
    ensures r.Success? ==> d.image.Some? && |d.image.value| >= 2 && r.value == d.image.value[1]
  {
    Dimension(d, 1)
  }

  /** `image_height`, also `ih`: the array's first dimension. */
  function ImageHeight(d: Data): (r: Result<nat, DataError>)
    ensures r.Success? ==> d.image.Some? && |d.image.value| >= 1 && r.value == d.image.value[0]
  {
    Dimension(d, 0)
  }

  /** An image of shape (h, w, ...) has width `w` and height `h`. */
  lemma DimensionsOfShape(d: Data, h: nat, w: nat, rest: seq<nat>)
    requires d.image == Some([h, w] + rest)
    ensures ImageWidth(d) == Success(w) && ImageHeight(d) == Success(h)
  {
  }

  function MarkerDicts(ms: seq<Marker>): (r: seq<Val>)
    ensures |r| == |ms|
    ensures forall k :: 0 <= k < |r| ==> r[k] == Dict(MarkerToDict(ms[k]))
  {
    if ms == [] then [] else [Dict(MarkerToDict(ms[0]))] + MarkerDicts(ms[1..])
  }

  /** `toDict()`: the three plain attributes and the markers' dictionaries;
      the image is not in it. */
  function DataToDict(d: Data): (r: map<string, Val>)
    ensures r.Keys == {"image_path", "image_meta", "editor_data", "markers"}
    ensures r["image_path"] == d.path && r["image_meta"] == d.meta && r["editor_data"] == d.editor
    ensures r["markers"] == List(MarkerDicts(d.markers))
  {
    map["image_path" := d.path, "image_meta" := d.meta, "editor_data" := d.editor,
        "markers" := List(MarkerDicts(d.markers))]
  }

  /** Each marker dictionary read into a fresh marker. */
  function ReadMarkers(vs: seq<Val>): (r: Result<seq<Marker>, DataError>)
    ensures r.Success? <==> forall k :: 0 <= k < |vs| ==> vs[k].Dict?
    ensures r.Success? ==> (&& |r.value| == |vs|
                            && forall k :: 0 <= k < |vs| ==> r.value[k] == MarkerFromDict(DefaultMarker(), vs[k].entries))
  {
    if vs == [] then Success([])
    else if !vs[0].Dict? then Failure(NotADict)
    else
      var tail := vs[1..];
      assert forall k :: 1 <= k < |vs| ==> vs[k] == tail[k - 1];
      match ReadMarkers(tail)
      case Failure(e) => Failure(e)
      case Success(rest) => Success([MarkerFromDict(DefaultMarker(), vs[0].entries)] + rest)
  }

  /** `fromDict(d)`: the three plain attributes are taken from `d`, and the
      markers are replaced by those read from `d`; the image is kept. */
  function DataFromDict(data: Data, d: map<string, Val>): (r: Result<Data, DataError>)
    ensures r.Success? <==> && {"image_path", "image_meta", "editor_data", "markers"} <= d.Keys
                            && d["markers"].List?
                            && ReadMarkers(d["markers"].items).Success?
    ensures r.Success? ==> && r.value.image == data.image
                           && r.value.path == d["image_path"] && r.value.meta == d["image_meta"]
                           && r.value.editor == d["editor_data"]
    ensures r.Success? ==> r.value.markers == ReadMarkers(d["markers"].items).value
  {
    if "image_path" !in d then Failure(MissingKey("image_path"))
    else if "image_meta" !in d then Failure(MissingKey("image_meta"))
    else if "editor_data" !in d then Failure(MissingKey("editor_data"))
    else if "markers" !in d then Failure(MissingKey("markers"))
    else if !d["markers"].List? then Failure(NotAList)
    else
      match ReadMarkers(d["markers"].items)
      case Failure(e) => Failure(e)
      case Success(ms) => Success(data.(path := d["image_path"], meta := d["image_meta"],
                                        editor := d["editor_data"], markers := ms))
  }

  /** Reading back a record's dictionary restores its path, metadata and
      editor data, and as many markers with the same exported attributes;
      the markers the target had before are gone, and its image stays. */
  lemma DataRoundTrip(d: Data, target: Data)
    ensures DataFromDict(target, DataToDict(d)).Success?
    ensures var d' := DataFromDict(target, DataToDict(d)).value;
      && d'.path == d.path && d'.meta == d.meta && d'.editor == d.editor
      && d'.image == target.image
      && |d'.markers| == |d.markers|
      && forall k :: 0 <= k < |d.markers| ==> MarkerToDict(d'.markers[k]) == MarkerToDict(d.markers[k])
  {
    var vs := MarkerDicts(d.markers);
    forall k | 0 <= k < |d.markers|
      ensures MarkerToDict(MarkerFromDict(DefaultMarker(), vs[k].entries)) == MarkerToDict(d.markers[k])
    {
      MarkerRoundTrip(d.markers[k]);
    }
  }

  // ---------------------------------------------------------------------
  // Extension dispatch

  /** `DP_EXT`. */
  const ArchiveExt: string := ".dpa"

  /** `os.path.splitext(path)[1]` for POSIX paths: from the last dot of the
      last path component to the end, unless that component has nothing but
      dots before it (a hidden file has no extension). */
  function Ext(p: string): (e: string)
    ensures e != [] ==> |e| <= |p| && e == p[|p| - |e|..] && e[0] == '.' && '.' !in e[1..] && '/' !in e
  {
    match LastIndex(p, '.')
    case None => []
    case Some(dot) =>
      var start := match LastIndex(p, '/') case None => 0 case Some(sep) => sep + 1;
      if dot < start then []
      else if exists j :: start <= j < dot && p[j] != '.' then p[dot..]
      else []
  }

  /** `str.lower()` on ASCII letters; other characters are kept. */
  function Lower(c: char): char {
    if 'A' <= c <= 'Z' then (c as int + 32) as char else c
  }

  function LowerAll(s: string): (r: string)
    ensures |r| == |s| && forall k :: 0 <= k < |s| ==> r[k] == Lower(s[k])
  {
    if s == [] then [] else [Lower(s[0])] + LowerAll(s[1..])
  }

  /** Which `_io` helper `load_displot_data` calls. */
  datatype Loader = ArchiveLoader | ImageLoader

  function LoadDispatch(p: string): (l: Loader)
    ensures l == ArchiveLoader <==> LowerAll(Ext(p)) == ArchiveExt
  {
    if LowerAll(Ext(p)) == ArchiveExt then ArchiveLoader else ImageLoader
  }

  /** Whether `save_displot_data` writes anything: only an archive path. */
  function SaveWrites(p: string): (w: bool)
    ensures w <==> LoadDispatch(p) == ArchiveLoader
  {
    LowerAll(Ext(p)) == ArchiveExt
  }

  /** In `dir + mid + e`, with no slash in `mid` and an extension-shaped
      `e`, the last dot opens `e` and the last slash ends `dir`. */
  lemma Separators(dir: string, mid: string, e: string)
    requires dir == [] || dir[|dir| - 1] == '/'
    requires '/' !in mid
    requires e != [] && e[0] == '.' && '.' !in e[1..] && '/' !in e
    ensures LastIndex(dir + mid + e, '.') == Some(|dir| + |mid|)
    ensures LastIndex(dir + mid + e, '/') == if dir == [] then None else Some(|dir| - 1)
  {
    var p := dir + mid + e;
    var dot := |dir| + |mid|;
    Parts(dir, mid, e);
    forall j | dot < j < |p|
      ensures p[j] != '.'
    {
      assert e[1..][j - dot - 1] == e[j - dot];
    }
    LastIndexIs(p, '.', dot);
    if dir == [] {
      assert forall j :: 0 <= j < |p| ==> p[j] != '/';
    } else {
      LastIndexIs(p, '/', |dir| - 1);
    }
  }

  /** Where the characters of `dir + mid + e` come from. */
  lemma Parts(dir: string, mid: string, e: string)
    ensures var p := dir + mid + e;
      && |p| == |dir| + |mid| + |e|
      && (forall j :: 0 <= j < |dir| ==> p[j] == dir[j])
      && (forall j :: |dir| <= j < |dir| + |mid| ==> p[j] == mid[j - |dir|])
      && (forall j :: |dir| + |mid| <= j < |p| ==> p[j] == e[j - |dir| - |mid|])
  {
  }

  /** A path ending in a named last component (`name`, not all dots) and
      an extension-shaped tail `e` has extension `e`. */
  lemma ExtOfNamed(dir: string, name: string, e: string)
    requires dir == [] || dir[|dir| - 1] == '/'
    requires '/' !in name && exists j :: 0 <= j < |name| && name[j] != '.'
    requires e != [] && e[0] == '.' && '.' !in e[1..] && '/' !in e
    ensures Ext(dir + name + e) == e
  {
    var p := dir + name + e;
    Separators(dir, name, e);
    assert p[|dir| + |name|..] == e;
    var j :| 0 <= j < |name| && name[j] != '.';
    assert p[|dir| + j] == name[j];
  }

  /** A path whose last component is dots followed by an extension-shaped
      tail (a hidden file such as `.dpa`) has no extension. */
  lemma ExtOfHidden(dir: string, dots: string, e: string)
    requires dir == [] || dir[|dir| - 1] == '/'
    requires forall j :: 0 <= j < |dots| ==> dots[j] == '.'
    requires e != [] && e[0] == '.' && '.' !in e[1..] && '/' !in e
    ensures Ext(dir + dots + e) == []
  {
    var p := dir + dots + e;
    Separators(dir, dots, e);
    forall j | |dir| <= j < |dir| + |dots|
      ensures p[j] == '.'
    {
      assert p[j] == dots[j - |dir|];
    }
  }

  /** For a named file, the archive loader is chosen exactly when the
      extension is `.dpa` in any capitalisation; a hidden `.dpa` file goes
      to the image loader. */
  lemma DispatchByExtension(dir: string, name: string, dots: string, e: string)
    requires dir == [] || dir[|dir| - 1] == '/'
    requires '/' !in name && exists j :: 0 <= j < |name| && name[j] != '.'
    requires forall j :: 0 <= j < |dots| ==> dots[j] == '.'
    requires e != [] && e[0] == '.' && '.' !in e[1..] && '/' !in e
    ensures LoadDispatch(dir + name + e) == ArchiveLoader <==> LowerAll(e) == ArchiveExt
    ensures LoadDispatch(dir + dots + e) == ImageLoader && !SaveWrites(dir + dots + e)
  {
    ExtOfNamed(dir, name, e);
    ExtOfHidden(dir, dots, e);
    assert LowerAll([]) != ArchiveExt;
  }
}
