/** The autotuning key of the GPU convolution kernels (`ConvParameters`) and
    the scratch-space allocator handed to the DNN library
    (`DnnScratchAllocator`).

    `Hash64Combine` is an uninterpreted parameter `combine`; the temporary
    allocation of `OpKernelContext::allocate_temp` is a success/failure
    oracle.  `TensorFormat` and `DataType` are their enum codes. */
module ConvOpsGpu {
  import opened Errors

  type int32 = x: int | -0x8000_0000 <= x < 0x8000_0000
  type int64 = x: int | -0x8000_0000_0000_0000 <= x < 0x8000_0000_0000_0000
  type uint64 = x: int | 0 <= x < 0x1_0000_0000_0000_0000

  type TensorFormat = int32
  type DataType = int32

  /** `gtl::InlinedVector<int64, 3>`: any length, but every constructor
      insists on at most three entries. */
  type SpatialArray = seq<int64>

  /** `MaxSpatialSize` is the bound of `CheckSpatialArraySize`. */
  const MaxSpatialSize: nat := 3

  /** The C++ conversion of a signed value to `uint64` (two's complement). */
  function ToUint64(x: int): (r: uint64)
    ensures 0 <= x < 0x1_0000_0000_0000_0000 ==> r == x
    ensures x < 0 && -0x1_0000_0000_0000_0000 <= x ==> r == x + 0x1_0000_0000_0000_0000
  {
    x % 0x1_0000_0000_0000_0000
  }

  type Combine = (uint64, uint64) -> uint64

  // ---------------------------------------------------------------------
  // ConvParameters
  // ---------------------------------------------------------------------

  /** The fields of a `ConvParameters` and the hash code computed from them
      at construction. */
  datatype ConvParameters = ConvParameters(
    batch: int64, inDepths: int64, outDepths: int64,
    inDims: SpatialArray, dataFormat: TensorFormat,
    filter: SpatialArray, dilation: SpatialArray, stride: SpatialArray, padding: SpatialArray,
    dtype: DataType, deviceId: int32, groupCount: int32,
    hashCode: uint64)

  /** `ParameterDataType`, in the order of `get_data_as_tuple`. */
  type ParameterData = (int64, int64, SpatialArray, TensorFormat, int64, SpatialArray,
                        SpatialArray, SpatialArray, SpatialArray, DataType, int32, int32)

  function DataAsTuple(p: ConvParameters): ParameterData
  {
    (p.batch, p.inDepths, p.inDims, p.dataFormat, p.outDepths, p.filter,
     p.dilation, p.stride, p.padding, p.dtype, p.deviceId, p.groupCount)
  }

  /** `operator==`: tuple equality, so the hash code takes no part. */
  function Equal(p: ConvParameters, q: ConvParameters): bool
  {
    DataAsTuple(p) == DataAsTuple(q)
  }

  /** `operator!=`. */
  function NotEqual(p: ConvParameters, q: ConvParameters): (r: bool)
    ensures r <==> !Equal(p, q)
  {
    !Equal(p, q)
  }

  predicate SpatialSizesOk(inDims: SpatialArray, filter: SpatialArray, dilation: SpatialArray,
                           stride: SpatialArray, padding: SpatialArray)
  {
    |inDims| <= MaxSpatialSize && |filter| <= MaxSpatialSize && |dilation| <= MaxSpatialSize &&
    |stride| <= MaxSpatialSize && |padding| <= MaxSpatialSize
  }

  /** Left fold of `combine` over `xs`, starting from `h`. */
  function Fold(combine: Combine, h: uint64, xs: seq<uint64>): uint64
  {
    if xs == [] then h else combine(Fold(combine, h, xs[..|xs| - 1]), xs[|xs| - 1])
  }

  lemma {:induction false} FoldAppend(combine: Combine, h: uint64, xs: seq<uint64>, ys: seq<uint64>)
    ensures Fold(combine, h, xs + ys) == Fold(combine, Fold(combine, h, xs), ys)
    decreases |ys|
  {
    if ys == [] {
      assert xs + ys == xs;
    } else {
      var ys' := ys[..|ys| - 1];
      assert (xs + ys)[..|xs + ys| - 1] == xs + ys';
      FoldAppend(combine, h, xs, ys');
    }
  }

  function Widened(s: seq<int64>): (r: seq<uint64>)
    ensures |r| == |s| && forall i :: 0 <= i < |s| ==> r[i] == ToUint64(s[i])
  {
    seq(|s|, i requires 0 <= i < |s| => ToUint64(s[i]))
  }

  /** The values `UpdateHash` folds into the hash, in its order, after the
      batch size it starts from. */
  function HashedValues(p: ConvParameters): seq<uint64>
  {
    [ToUint64(p.inDepths)] + Widened(p.inDims) + [ToUint64(p.dataFormat), ToUint64(p.outDepths)] +
    Widened(p.filter) + Widened(p.dilation) + Widened(p.stride) + Widened(p.padding) +
    [ToUint64(p.dtype), ToUint64(p.deviceId), ToUint64(p.groupCount)]
  }

  /** The hash code of `p`'s fields, combined in `UpdateHash`'s order. */
  function HashOf(p: ConvParameters, combine: Combine): uint64
  {
    var h := combine(ToUint64(p.batch), ToUint64(p.inDepths));
    var h := Fold(combine, h, Widened(p.inDims));
    var h := combine(combine(h, ToUint64(p.dataFormat)), ToUint64(p.outDepths));
    var h := Fold(combine, h, Widened(p.filter));
    var h := Fold(combine, h, Widened(p.dilation));
    var h := Fold(combine, h, Widened(p.stride));
    var h := Fold(combine, h, Widened(p.padding));
    combine(combine(combine(h, ToUint64(p.dtype)), ToUint64(p.deviceId)), ToUint64(p.groupCount))
  }

  /** The hash is one left fold of `Hash64Combine` over the fields, starting
      from the batch size, so it depends on nothing but the fields and
      their order. */
  lemma HashIsFoldOfFields(p: ConvParameters, combine: Combine)
    ensures HashOf(p, combine) == Fold(combine, ToUint64(p.batch), HashedValues(p))
  {
    var start := ToUint64(p.batch);
    var d0 := [ToUint64(p.inDepths)];
    assert Fold(combine, start, d0) == combine(start, ToUint64(p.inDepths)) by {
      assert d0[..0] == [];
    }
    var d1 := d0 + Widened(p.inDims);
    FoldAppend(combine, start, d0, Widened(p.inDims));
    var mid := [ToUint64(p.dataFormat), ToUint64(p.outDepths)];
    var d2 := d1 + mid;
    FoldAppend(combine, start, d1, mid);
    var h1 := Fold(combine, start, d1);
    assert Fold(combine, h1, mid) == combine(combine(h1, mid[0]), mid[1]) by {
      assert Fold(combine, h1, mid) == combine(Fold(combine, h1, mid[..1]), mid[1]);
      assert mid[..1][..0] == [];
      assert Fold(combine, h1, mid[..1]) == combine(Fold(combine, h1, []), mid[0]);
    }
    var d3 := d2 + Widened(p.filter);
    FoldAppend(combine, start, d2, Widened(p.filter));
    var d4 := d3 + Widened(p.dilation);
    FoldAppend(combine, start, d3, Widened(p.dilation));
    var d5 := d4 + Widened(p.stride);
    FoldAppend(combine, start, d4, Widened(p.stride));
    var d6 := d5 + Widened(p.padding);
    FoldAppend(combine, start, d5, Widened(p.padding));
    var tail := [ToUint64(p.dtype), ToUint64(p.deviceId), ToUint64(p.groupCount)];
    FoldAppend(combine, start, d6, tail);
    var h6 := Fold(combine, start, d6);
    assert Fold(combine, h6, tail) ==
           combine(combine(combine(h6, tail[0]), tail[1]), tail[2]) by {
      assert Fold(combine, h6, tail) == combine(Fold(combine, h6, tail[..2]), tail[2]);
      assert tail[..2][..1] == tail[..1] && tail[..1][..0] == [];
      assert Fold(combine, h6, tail[..2]) == combine(Fold(combine, h6, tail[..1]), tail[1]);
      assert Fold(combine, h6, tail[..1]) == combine(Fold(combine, h6, []), tail[0]);
    }
    assert d6 + tail == HashedValues(p);
  }

  /** A value as the constructors build it: small spatial arrays and the
      hash code of its fields. */
  predicate Constructed(p: ConvParameters, combine: Combine)
  {
    SpatialSizesOk(p.inDims, p.filter, p.dilation, p.stride, p.padding) &&
    p.hashCode == HashOf(p, combine)
  }

  /** `operator==` compares the twelve fields one by one. */
  lemma EqualIsFieldwise(p: ConvParameters, q: ConvParameters)
    ensures Equal(p, q) <==>
      p.batch == q.batch && p.inDepths == q.inDepths && p.inDims == q.inDims &&
      p.dataFormat == q.dataFormat && p.outDepths == q.outDepths && p.filter == q.filter &&
      p.dilation == q.dilation && p.stride == q.stride && p.padding == q.padding &&
      p.dtype == q.dtype && p.deviceId == q.deviceId && p.groupCount == q.groupCount
  {
  }

  /** Equal parameters built with the same `Hash64Combine` have equal
      `hash()`, and are then the very same value. */
  lemma EqualImpliesSameHash(p: ConvParameters, q: ConvParameters, combine: Combine)
    requires Constructed(p, combine) && Constructed(q, combine)
    requires Equal(p, q)
    ensures p.hashCode == q.hashCode
    ensures p == q
  {
  }

  /** `UpdateHash`'s inner loops: `for (int64 val : vals) h = Hash64Combine(h, val)`. */
  method CombineEach(combine: Combine, h: uint64, vals: SpatialArray) returns (r: uint64)
    ensures r == Fold(combine, h, Widened(vals))
  {
    r := h;
    for i := 0 to |vals|
      invariant r == Fold(combine, h, Widened(vals[..i]))
    {
      assert Widened(vals[..i + 1])[..i] == Widened(vals[..i]);
      r := combine(r, ToUint64(vals[i]));
    }
    assert vals[..|vals|] == vals;
  }

  /** `UpdateHash`: the hash code of `p`'s fields (`p.hashCode` is ignored). */
  method UpdateHash(p: ConvParameters, combine: Combine) returns (hashCode: uint64)
    ensures hashCode == HashOf(p, combine)
  {
    hashCode := ToUint64(p.batch);
    hashCode := combine(hashCode, ToUint64(p.inDepths));
    hashCode := CombineEach(combine, hashCode, p.inDims);
    hashCode := combine(hashCode, ToUint64(p.dataFormat));
    hashCode := combine(hashCode, ToUint64(p.outDepths));
    hashCode := CombineEach(combine, hashCode, p.filter);
    hashCode := CombineEach(combine, hashCode, p.dilation);
    hashCode := CombineEach(combine, hashCode, p.stride);
    hashCode := CombineEach(combine, hashCode, p.padding);
    hashCode := combine(hashCode, ToUint64(p.dtype));
    hashCode := combine(hashCode, ToUint64(p.deviceId));
    hashCode := combine(hashCode, ToUint64(p.groupCount));
  }

  /** The 12-argument constructor.  A spatial array longer than three fails
      `CheckSpatialArraySize`'s `CHECK_LE`, which aborts the process. */
  method New(batch: int64, inDepths: int64, inDims: SpatialArray, dataFormat: TensorFormat,
             outDepths: int64, filter: SpatialArray, dilation: SpatialArray,
             stride: SpatialArray, padding: SpatialArray, dtype: DataType,
             deviceId: int32, groupCount: int32, combine: Combine)
    returns (r: StatusOr<ConvParameters>)
    ensures r.Value? <==> SpatialSizesOk(inDims, filter, dilation, stride, padding)
    ensures r.Failure? ==> r.code == CheckFailed
    ensures r.Value? ==>
      DataAsTuple(r.value) == (batch, inDepths, inDims, dataFormat, outDepths, filter,
                               dilation, stride, padding, dtype, deviceId, groupCount) &&
      Constructed(r.value, combine)
  {
    if !SpatialSizesOk(inDims, filter, dilation, stride, padding) {
      return Failure(CheckFailed, "Check failed: array.size() <= 3");
    }
    var p := ConvParameters(batch, inDepths, outDepths, inDims, dataFormat, filter,
                            dilation, stride, padding, dtype, deviceId, groupCount, 0);
    var h := UpdateHash(p, combine);
    r := Value(p.(hashCode := h));
  }

  /** The default argument of `group_count`. */
  const DefaultGroupCount: int32 := 1

  /** The field constructor called without `group_count`: a single group. */
  method NewWithDefaultGroupCount(batch: int64, inDepths: int64, inDims: SpatialArray, dataFormat: TensorFormat,
                                  outDepths: int64, filter: SpatialArray, dilation: SpatialArray,
                                  stride: SpatialArray, padding: SpatialArray, dtype: DataType,
                                  deviceId: int32, combine: Combine)
    returns (r: StatusOr<ConvParameters>)
    ensures r.Value? <==> SpatialSizesOk(inDims, filter, dilation, stride, padding)
    ensures r.Failure? ==> r.code == CheckFailed
    ensures r.Value? ==>
      DataAsTuple(r.value) == (batch, inDepths, inDims, dataFormat, outDepths, filter,
                               dilation, stride, padding, dtype, deviceId, 1) &&
      Constructed(r.value, combine)
  {
    r := New(batch, inDepths, inDims, dataFormat, outDepths, filter, dilation, stride, padding,
             dtype, deviceId, DefaultGroupCount, combine);
  }

  // ---------------------------------------------------------------------
  // ConvParamsProto and the proto round trip
  // ---------------------------------------------------------------------

  /** The fields of a `ConvParamsProto`, as the C++ code reads and writes them. */
  datatype ConvParamsProto = ConvParamsProto(
    batch: int64, inDepths: int64, outDepths: int64,
    inDims: seq<int64>, dataFormat: int32,
    filter: seq<int64>, dilation: seq<int64>, stride: seq<int64>, padding: seq<int64>,
    dtype: DataType, deviceId: int32, groupCount: int32)

  /** A default-constructed proto: zero scalars and empty repeated fields. */
  const EmptyProto := ConvParamsProto(0, 0, 0, [], 0, [], [], [], [], 0, 0, 0)

  /** The value the proto constructor builds. */
  function Decoded(proto: ConvParamsProto, combine: Combine): (r: StatusOr<ConvParameters>)
  {
    if !SpatialSizesOk(proto.inDims, proto.filter, proto.dilation, proto.stride, proto.padding)
    then Failure(CheckFailed, "Check failed: array.size() <= 3")
    else
      var p := ConvParameters(proto.batch, proto.inDepths, proto.outDepths, proto.inDims,
                              proto.dataFormat, proto.filter, proto.dilation, proto.stride,
                              proto.padding, proto.dtype, proto.deviceId, proto.groupCount, 0);
      Value(p.(hashCode := HashOf(p, combine)))
  }

  /** The proto `ToProto` fills in. */
  function Encoded(p: ConvParameters): ConvParamsProto
  {
    ConvParamsProto(p.batch, p.inDepths, p.outDepths, p.inDims, p.dataFormat, p.filter,
                    p.dilation, p.stride, p.padding, p.dtype, p.deviceId, p.groupCount)
  }

  /** `ConvParameters(const ConvParamsProto&)`. */
  method FromProto(proto: ConvParamsProto, combine: Combine) returns (r: StatusOr<ConvParameters>)
    ensures r == Decoded(proto, combine)
  {
    if !SpatialSizesOk(proto.inDims, proto.filter, proto.dilation, proto.stride, proto.padding) {
      return Failure(CheckFailed, "Check failed: array.size() <= 3");
    }
    var p := ConvParameters(proto.batch, proto.inDepths, proto.outDepths, proto.inDims,
                            proto.dataFormat, proto.filter, proto.dilation, proto.stride,
                            proto.padding, proto.dtype, proto.deviceId, proto.groupCount, 0);
    var h := UpdateHash(p, combine);
    r := Value(p.(hashCode := h));
  }

  /** `proto.mutable_x()->Add(v)` for every `v` of `vals`, in order. */
  method AddAll(repeated: seq<int64>, vals: seq<int64>) returns (r: seq<int64>)
    ensures r == repeated + vals
  {
    r := repeated;
    for i := 0 to |vals|
      invariant r == repeated + vals[..i]
    {
      assert vals[..i + 1] == vals[..i] + [vals[i]];
      r := r + [vals[i]];
    }
    assert vals[..|vals|] == vals;
  }

  /** `ToProto`. */
  method ToProto(p: ConvParameters) returns (proto: ConvParamsProto)
    ensures proto == Encoded(p)
  {
    proto := EmptyProto;
    proto := proto.(batch := p.batch, inDepths := p.inDepths, outDepths := p.outDepths);
    var inDims := AddAll(proto.inDims, p.inDims);
    proto := proto.(inDims := inDims, dataFormat := p.dataFormat);
    var filter := AddAll(proto.filter, p.filter);
    var dilation := AddAll(proto.dilation, p.dilation);
    var stride := AddAll(proto.stride, p.stride);
    var padding := AddAll(proto.padding, p.padding);
    proto := proto.(filter := filter, dilation := dilation, stride := stride, padding := padding);
    proto := proto.(dtype := p.dtype, deviceId := p.deviceId, groupCount := p.groupCount);
  }

  /** Both constructors leave every spatial array with at most three entries. */
  lemma ConstructedSpatialSizes(proto: ConvParamsProto, combine: Combine)
    ensures Decoded(proto, combine).Value? <==>
      SpatialSizesOk(proto.inDims, proto.filter, proto.dilation, proto.stride, proto.padding)
    ensures Decoded(proto, combine).Value? ==> Constructed(Decoded(proto, combine).value, combine)
  {
  }

  /** Rebuilding from `ToProto()` gives back an equal value (indeed the same one). */
  lemma ProtoRoundTrip(p: ConvParameters, combine: Combine)
    requires Constructed(p, combine)
    ensures Decoded(Encoded(p), combine) == Value(p)
    ensures Equal(Decoded(Encoded(p), combine).value, p)
  {
    var q := Decoded(Encoded(p), combine).value;
    assert HashedValues(q) == HashedValues(p);
  }

  /** Serialising a value rebuilt from a proto gives back that proto. */
  lemma ParametersRoundTrip(proto: ConvParamsProto, combine: Combine)
    requires Decoded(proto, combine).Value?
    ensures Encoded(Decoded(proto, combine).value) == proto
  {
  }

  // ---------------------------------------------------------------------
  // DnnScratchAllocator
  // ---------------------------------------------------------------------

  /** A temporary `DT_UINT8` tensor of `numBytes` elements. */
  datatype Tensor = Tensor(numBytes: int64)

  /** `se::DeviceMemory<uint8>`, reduced to its size. */
  datatype DeviceMemory = DeviceMemory(size: int64)

  function SumBytes(ts: seq<Tensor>): int
  {
    if ts == [] then 0 else SumBytes(ts[..|ts| - 1]) + ts[|ts| - 1].numBytes
  }

  class DnnScratchAllocator {
    const memoryLimit: int64
    var totalByteSize: int
    var allocatedTensors: seq<Tensor>

    /** Every held tensor fitted the limit and the total is their size. */
    ghost predicate Valid()
      reads this
    {
      (forall i :: 0 <= i < |allocatedTensors| ==>
         0 <= allocatedTensors[i].numBytes <= memoryLimit) &&
      totalByteSize == SumBytes(allocatedTensors)
    }

    constructor (memoryLimit: int64)
      ensures Valid()
      ensures this.memoryLimit == memoryLimit
      ensures totalByteSize == 0 && allocatedTensors == []
    {
      this.memoryLimit := memoryLimit;
      totalByteSize := 0;
      allocatedTensors := [];
    }

    function GetMemoryLimitInBytes(): (limit: int64)
      reads this
      ensures limit == memoryLimit
    {
      memoryLimit
    }

    /** `TotalByteSize`: the bytes held by the allocator, never negative. */
    function TotalByteSize(): (n: int)
      reads this
      requires Valid()
      ensures n == SumBytes(allocatedTensors)
      ensures n >= 0
    {
      SumNonNegative(allocatedTensors);
      totalByteSize
    }

    static lemma {:induction false} SumNonNegative(ts: seq<Tensor>)
      requires forall i :: 0 <= i < |ts| ==> ts[i].numBytes >= 0
      ensures SumBytes(ts) >= 0
    {
      if ts != [] {
        SumNonNegative(ts[..|ts| - 1]);
      }
    }

    /** `AllocateBytes`.  `allocateTempOk` is whether `allocate_temp`
        succeeds; its failure, like a request above the limit, yields the
        default-constructed `StatusOr`, which holds no memory. */
    method AllocateBytes(byteSize: int64, allocateTempOk: bool) returns (r: StatusOr<DeviceMemory>)
      requires Valid()
      modifies this
      ensures Valid()
      ensures byteSize < 0 ==> r == Failure(InvalidArgument, "Requested negative byte size!")
      ensures 0 <= byteSize && (byteSize > memoryLimit || !allocateTempOk) ==>
                r == Failure(Unknown, "")
      ensures r.Value? <==> 0 <= byteSize <= memoryLimit && allocateTempOk
      ensures r.Value? ==> r.value == DeviceMemory(byteSize)
      ensures r.Value? ==>
        allocatedTensors == old(allocatedTensors) + [Tensor(byteSize)] &&
        totalByteSize == old(totalByteSize) + byteSize
      ensures r.Failure? ==>
        allocatedTensors == old(allocatedTensors) && totalByteSize == old(totalByteSize)
    {
      if byteSize < 0 {
        return Failure(InvalidArgument, "Requested negative byte size!");
      }
      if byteSize > memoryLimit {
        return Failure(Unknown, "");
      }
      if !allocateTempOk {
        return Failure(Unknown, "");
      }
      var temporaryMemory := Tensor(byteSize);
      allocatedTensors := allocatedTensors + [temporaryMemory];
      totalByteSize := totalByteSize + byteSize;
      assert allocatedTensors[..|allocatedTensors| - 1] == old(allocatedTensors);
      r := Value(DeviceMemory(temporaryMemory.numBytes));
    }
  }
}
