/// `bgra_image` and the raster loader `gdal_read_bgra_image` of main.cpp.  The
/// pixel vector is a sequence the methods reassign; GDAL's dataset is reduced to
/// its raster size and the bytes its bands read back.
module Image {

  type Byte = b: int | 0 <= b < 256

  /// A `bgra` pixel: channels blue, green, red, alpha at indices 0 to 3.
  type Pixel = p: seq<Byte> | |p| == 4 witness [0, 0, 0, 0]

  /// The value-initialised pixel `std::vector::resize` appends.
  const Zero: Pixel := [0, 0, 0, 0]

  const Opaque: Byte := 0xFF

  /// 2^32: `uint32_t` arithmetic is taken modulo this.
  const U32: nat := 0x1_0000_0000

  /// Product of two `uint32_t` values as C++ computes it, wrapping at 2^32.
  function Mul32(a: nat, b: nat): (r: nat)
    ensures r < U32
    ensures a * b < U32 ==> r == a * b
  {
    (a * b) % U32
  }

  /// `std::vector::resize(n)`: the first `min(n, |data|)` elements are kept and
  /// any new ones are value-initialised.
  function Resized(data: seq<Pixel>, n: nat): (r: seq<Pixel>)
    ensures |r| == n
    ensures forall k :: 0 <= k < n ==> r[k] == if k < |data| then data[k] else Zero
  {
    if n <= |data| then data[..n] else data + seq(n - |data|, _ => Zero)
  }

  /// Sizes 65536 x 65536 wrap the 32-bit element count to 0.
  lemma ElementCountWraps()
    ensures Mul32(65536, 65536) == 0 && 65536 * 65536 > 0
  {
  }

  class BgraImage {
    var data: seq<Pixel>
    var width: nat
    var height: nat

    /// Row-major storage holds exactly one pixel per coordinate.
    ghost predicate Valid()
      reads this
    {
      |data| == width * height
    }

    /// An empty image, as a default-constructed `bgra_image` is.
    constructor ()
      ensures data == [] && width == 0 && height == 0 && Valid()
    {
      data, width, height := [], 0, 0;
    }

    /// `create` as written: the element count `w * h` is computed in `uint32_t`.
    method CreateAsWritten(w: nat, h: nat)
      requires w < U32 && h < U32
      modifies this
      ensures width == w && height == h
      ensures data == Resized(old(data), Mul32(w, h))
    {
      data := Resized(data, Mul32(w, h));
      width, height := w, h;
    }

    /// `create` with the element count the image invariant needs.
    method Create(w: nat, h: nat)
      requires w < U32 && h < U32
      modifies this
      ensures width == w && height == h && Valid()
      ensures data == Resized(old(data), w * h)
    {
      data := Resized(data, w * h);
      width, height := w, h;
    }
  }

  datatype Option<T> = None | Some(value: T)

  /// What the loader sees of a GDAL dataset: its raster size, and for each band
  /// the bytes `gdal_read_2darray` reads back from it.
  datatype Dataset = Dataset(rasterWidth: nat, rasterHeight: nat, bands: seq<seq<Byte>>)

  /// A GDAL band of a raster holds one byte per raster pixel.
  predicate BandsFit(ds: Dataset)
  {
    forall i :: 0 <= i < |ds.bands| ==> |ds.bands[i]| == ds.rasterWidth * ds.rasterHeight
  }

  /// `gdal_read_bgra_image`: a missing dataset or one without exactly three bands
  /// is refused; otherwise band i lands in channel 2 - i of every pixel and alpha
  /// is forced opaque.
  method ReadBgra(img: BgraImage, dataset: Option<Dataset>) returns (ok: bool)
    requires dataset.Some? ==> dataset.value.rasterWidth < U32 && dataset.value.rasterHeight < U32
    requires dataset.Some? ==> BandsFit(dataset.value)
    modifies img
    ensures ok <==> dataset.Some? && |dataset.value.bands| == 3
    ensures !ok ==> unchanged(img)
    ensures ok ==> img.width == dataset.value.rasterWidth && img.height == dataset.value.rasterHeight
    ensures ok ==> img.Valid()
    ensures ok ==> forall j, i :: 0 <= j < |img.data| && 0 <= i < 3 ==>
                     img.data[j][2 - i] == dataset.value.bands[i][j]
    ensures ok ==> forall j :: 0 <= j < |img.data| ==> img.data[j][3] == Opaque
  {
    if dataset.None? {
      return false;
    }
    var ds := dataset.value;
    if |ds.bands| != 3 {
      return false;
    }
    img.width, img.height := ds.rasterWidth, ds.rasterHeight;
    var n := img.width * img.height;
    img.data := Resized(img.data, n);
    var i := 0;
    while i < |ds.bands|
      invariant 0 <= i <= 3
      invariant img.width == ds.rasterWidth && img.height == ds.rasterHeight && |img.data| == n
      invariant forall j, c :: 0 <= j < n && 0 <= c < i ==> img.data[j][2 - c] == ds.bands[c][j]
    {
      var bandData := ds.bands[i];
      var j := 0;
      while j < n
        invariant 0 <= j <= n
        invariant img.width == ds.rasterWidth && img.height == ds.rasterHeight && |img.data| == n
        invariant forall j', c :: 0 <= j' < n && 0 <= c < i ==> img.data[j'][2 - c] == ds.bands[c][j']
        invariant forall j' :: 0 <= j' < j ==> img.data[j'][2 - i] == bandData[j']
      {
        img.data := img.data[j := img.data[j][2 - i := bandData[j]]];
        j := j + 1;
      }
      i := i + 1;
    }
    var k := 0;
    while k < |img.data|
      invariant 0 <= k <= n
      invariant img.width == ds.rasterWidth && img.height == ds.rasterHeight && |img.data| == n
      invariant forall j, c :: 0 <= j < n && 0 <= c < 3 ==> img.data[j][2 - c] == ds.bands[c][j]
      invariant forall j :: 0 <= j < k ==> img.data[j][3] == Opaque
    {
      img.data := img.data[k := img.data[k][3 := Opaque]];
      k := k + 1;
    }
    return true;
  }
}
