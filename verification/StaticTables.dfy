/** Position tables computed once and cached by name (`static_table_resolver.rs`). */
module StaticTables {
  import opened Wrappers
  import opened Arithmetic
  import opened Strings
  import opened Bytes
  import opened Half
  import opened Narrowing
  import opened Weights

  const HALF_ONE: u16 := 0x3C00
  const HALF_NEG_INF: u16 := 0xFC00

  /** `sin(pos, k)` and `cos(pos, k)` are the half-precision values at position `pos` and
      frequency `k`; they take the place of `theta` and of the trigonometry. */
  datatype RopeConfig = RopeConfig(sin: (nat, nat) -> u16, cos: (nat, nat) -> u16, headDim: nat, seqLen: nat) {
    /** With a single column there is no frequency to take an index modulo. */
    ghost predicate Computable() { headDim == 1 ==> seqLen == 0 }
  }

  datatype Table = SinTab | CosTab | EyeTab | MaskTab | ArangeTab | ArangeFp16Tab

  function TableName(t: Table): (s: string)
    ensures '/' !in s
  {
    match t
    case SinTab => "sin_tab"
    case CosTab => "cos_tab"
    case EyeTab => "eye_tab"
    case MaskTab => "mask_tab"
    case ArangeTab => "arange_tab"
    case ArangeFp16Tab => "arange_fp16_tab"
  }

  function Key(ref: string, t: Table): string {
    "static_tables/" + ref + "/" + TableName(t)
  }

  // ----- pointwise definitions

  function Frequency(config: RopeConfig, i: nat): nat {
    if config.headDim < 2 then 0 else i % (config.headDim / 2)
  }

  function Sine(config: RopeConfig): (nat, nat) -> u16 { (pos, i) => config.sin(pos, Frequency(config, i)) }
  function Cosine(config: RopeConfig): (nat, nat) -> u16 { (pos, i) => config.cos(pos, Frequency(config, i)) }
  function Identity(): (nat, nat) -> u16 { (row, col) => if row == col then HALF_ONE else 0 }
  function CausalMask(seqLen: nat): (nat, nat) -> u16 {
    (row, col) => if row + col + 1 >= seqLen then 0 else HALF_NEG_INF
  }

  /** `half::f16::from_f64(i as f64)` */
  function F16OfInt(i: nat): u16 { RoundToHalf(i * 0x100_0000, 1) }

  function Positions(): (nat, nat) -> u16 { (_, i) => F16OfInt(i) }

  function HalfRow(f: (nat, nat) -> u16, row: nat, cols: nat): (b: seq<byte>)
    ensures |b| == 2 * cols
  {
    if cols == 0 then [] else HalfRow(f, row, cols - 1) + U16ToLe(f(row, cols - 1))
  }

  function HalfRows(f: (nat, nat) -> u16, rows: nat, cols: nat): seq<byte> {
    if rows == 0 then [] else HalfRows(f, rows - 1, cols) + HalfRow(f, rows - 1, cols)
  }

  function Words(count: nat): (b: seq<byte>)
    ensures |b| == 4 * count
  {
    if count == 0 then [] else Words(count - 1) + U32ToLe((count - 1) % 0x1_0000_0000)
  }

  function TableData(config: RopeConfig, t: Table): WeightData {
    var seqLen, hd := config.seqLen, config.headDim;
    match t
    case SinTab => WeightData(HalfRows(Sine(config), seqLen, hd), [1, 1, seqLen, hd], Fp16)
    case CosTab => WeightData(HalfRows(Cosine(config), seqLen, hd), [1, 1, seqLen, hd], Fp16)
    case EyeTab => WeightData(HalfRows(Identity(), seqLen, seqLen), [seqLen, seqLen], Fp16)
    case MaskTab => WeightData(HalfRows(CausalMask(seqLen), seqLen, seqLen), [seqLen, seqLen], Fp16)
    case ArangeTab => WeightData(Words(seqLen), [seqLen], Int32)
    case ArangeFp16Tab => WeightData(HalfRow(Positions(), 0, seqLen), [seqLen], Fp16)
  }

  /** The quadratic tables are left out above 8192 positions. */
  function Tables(seqLen: nat): set<Table> {
    {SinTab, CosTab, ArangeTab, ArangeFp16Tab} + if seqLen <= 8192 then {EyeTab, MaskTab} else {}
  }

  // ----- what the buffers hold

  lemma {:induction false} HalfRowAt(f: (nat, nat) -> u16, row: nat, cols: nat, c: nat)
    requires c < cols
    ensures U16At(HalfRow(f, row, cols), c) == f(row, c)
  {
    if c < cols - 1 {
      HalfRowAt(f, row, cols - 1, c);
      assert U16At(HalfRow(f, row, cols), c) == U16At(HalfRow(f, row, cols - 1), c);
    }
  }

  lemma {:induction false} HalfRowsLength(f: (nat, nat) -> u16, rows: nat, cols: nat)
    ensures |HalfRows(f, rows, cols)| == 2 * (rows * cols)
  {
    if rows > 0 {
      HalfRowsLength(f, rows - 1, cols);
      assert rows * cols == (rows - 1) * cols + cols;
    }
  }

  /** Row `r`, column `c` of a table is stored at element `r * cols + c`. */
  lemma {:induction false} HalfRowsAt(f: (nat, nat) -> u16, rows: nat, cols: nat, r: nat, c: nat)
    requires r < rows && c < cols
    ensures 2 * (r * cols + c) + 1 < |HalfRows(f, rows, cols)|
    ensures U16At(HalfRows(f, rows, cols), r * cols + c) == f(r, c)
  {
    HalfRowsLength(f, rows - 1, cols);
    HalfRowsLength(f, rows, cols);
    if r == rows - 1 {
      HalfRowAt(f, r, cols, c);
      var init, last := HalfRows(f, rows - 1, cols), HalfRow(f, r, cols);
      assert 2 * (r * cols + c) == |init| + 2 * c;
      assert (init + last)[|init| + 2 * c] == last[2 * c] && (init + last)[|init| + 2 * c + 1] == last[2 * c + 1];
    } else {
      HalfRowsAt(f, rows - 1, cols, r, c);
    }
  }

  lemma {:induction false} WordsAt(count: nat, i: nat)
    requires i < count
    ensures U32At(Words(count), i) == i % 0x1_0000_0000
  {
    var init, w: u32 := Words(count - 1), (count - 1) % 0x1_0000_0000;
    if i < count - 1 {
      WordsAt(count - 1, i);
    } else {
      var b := U32ToLe(w);
      assert forall k :: 0 <= k < 4 ==> (init + b)[4 * i + k] == b[k];
      assert U32At(init + b, i) == U32At(b, 0);
    }
  }

  /** Sine and cosine rows repeat their first half, since both halves share frequencies. */
  lemma {:induction false} RopeHalvesRepeat(config: RopeConfig, t: Table, pos: nat, i: nat)
    requires t == SinTab || t == CosTab
    requires config.headDim % 2 == 0 && pos < config.seqLen && i < config.headDim / 2
    ensures |TableData(config, t).data| == 2 * (config.seqLen * config.headDim)
    ensures 2 * (pos * config.headDim + i + config.headDim / 2) + 1 < |TableData(config, t).data|
    ensures U16At(TableData(config, t).data, pos * config.headDim + i)
         == U16At(TableData(config, t).data, pos * config.headDim + i + config.headDim / 2)
         == if t == SinTab then config.sin(pos, i) else config.cos(pos, i)
  {
    var hd := config.headDim;
    assert Frequency(config, i) == Frequency(config, i + hd / 2) == i by { FrequencyRepeats(config, i); }
    var f := if t == SinTab then Sine(config) else Cosine(config);
    HalfRowsLength(f, config.seqLen, hd);
    HalfRowsAt(f, config.seqLen, hd, pos, i);
    HalfRowsAt(f, config.seqLen, hd, pos, i + hd / 2);
  }

  lemma {:induction false} FrequencyRepeats(config: RopeConfig, i: nat)
    requires config.headDim % 2 == 0 && i < config.headDim / 2
    ensures Frequency(config, i) == Frequency(config, i + config.headDim / 2) == i
  {
    DivModUnique(i, config.headDim / 2, 0, i);
    DivModUnique(i + config.headDim / 2, config.headDim / 2, 1, i);
  }

  /** Whether row `row` of the mask table lets column `col` through. */
  ghost predicate Unmasked(config: RopeConfig, row: nat, col: nat)
    requires row < config.seqLen && col < config.seqLen
  {
    HalfRowsAt(CausalMask(config.seqLen), config.seqLen, config.seqLen, row, col);
    U16At(TableData(config, MaskTab).data, row * config.seqLen + col) == 0
  }

  /** Row `row` of the mask lets exactly its last `row + 1` columns through, and lets through
      whatever an earlier row does. */
  lemma {:induction false} MaskRows(config: RopeConfig, row: nat)
    requires row < config.seqLen
    ensures forall col: nat | col < config.seqLen :: Unmasked(config, row, col) <==> row + col + 1 >= config.seqLen
    ensures |set col: nat | col < config.seqLen && Unmasked(config, row, col)| == row + 1
    ensures forall r: nat, col: nat | r <= row && col < config.seqLen && Unmasked(config, r, col) :: Unmasked(config, row, col)
  {
    var n := config.seqLen;
    forall r: nat, col: nat | r < n && col < n
      ensures Unmasked(config, r, col) <==> r + col + 1 >= n
    {
      HalfRowsAt(CausalMask(n), n, n, r, col);
    }
    assert (set col: nat | col < n && Unmasked(config, row, col)) == Range(n - 1 - row, n);
  }

  lemma {:induction false} EyeRows(config: RopeConfig, row: nat, col: nat)
    requires row < config.seqLen && col < config.seqLen
    ensures 2 * (row * config.seqLen + col) + 1 < |TableData(config, EyeTab).data|
    ensures U16At(TableData(config, EyeTab).data, row * config.seqLen + col)
         == if row == col then F16OfInt(1) else F16OfInt(0)
  {
    HalfRowsAt(Identity(), config.seqLen, config.seqLen, row, col);
    OneRounds();
  }

  lemma {:induction false} OneRounds()
    ensures F16OfInt(1) == HALF_ONE && F16OfInt(0) == 0
  {
    IntegerExact(1, 24, 0);
    HalfValueFields(15, 0);
    Pow2Small();
    assert Pow2(14) == 0x4000;
    assert HalfValue(HALF_ONE) == 0x100_0000;
    RoundExact(HALF_ONE, 1);
  }

  lemma {:induction false} ArangeEntries(config: RopeConfig, i: nat)
    requires i < config.seqLen
    ensures U32At(TableData(config, ArangeTab).data, i) == i % 0x1_0000_0000
    ensures U16At(TableData(config, ArangeFp16Tab).data, i) == F16OfInt(i)
  {
    WordsAt(config.seqLen, i);
    HalfRowAt(Positions(), 0, config.seqLen, i);
  }

  // ----- positions in half precision

  lemma {:induction false} PositionsMonotone(i: nat, j: nat)
    requires i <= j
    ensures F16OfInt(i) <= F16OfInt(j)
  {
    RoundUnboundedMonotone(i * 0x100_0000, j * 0x100_0000, 1);
  }

  /** An integer below 2048, at any scale, is kept exactly. */
  lemma {:induction false} IntegerExact(i: nat, a: nat, b: nat)
    requires i < 2048 && b <= a
    ensures HalfValue(RoundUnbounded(i * Pow2(a), Pow2(b))) * Pow2(b) == i * Pow2(a)
    decreases a - b
  {
    var n, d := i * Pow2(a), Pow2(b);
    if n < 2048 * d {
      var q := i * Pow2(a - b);
      Pow2Split(a - b, b, a);
      Regroup(i, Pow2(a - b), d, 1, Pow2(a));
      DivModUnique(n, d, q, 0);
      RoundEvenBound(n, d, 2048);
    } else {
      if b == a { MulLess(i, 2048, d); }
      IntegerExact(i, a, b + 1);
      RoundUnboundedAtLeast(n, 2 * d);
      DistanceHalves(n, d, RoundUnbounded(n, 2 * d));
      DoubleValue(RoundUnbounded(n, 2 * d), d);
    }
  }

  lemma {:induction false} DoubleValue(h: nat, d: nat)
    requires h >= 1024
    ensures HalfValue(h + 1024) * d == HalfValue(h) * (2 * d)
  {
    var v := HalfValue(h);
    assert HalfValue(h + 1024) == 2 * v;
    assert 2 * v * d == v * (2 * d);
  }

  lemma {:induction false} PositionExact(i: nat)
    requires i <= 2048
    ensures HalfValue(F16OfInt(i)) == i * 0x100_0000
  {
    Pow2Small();
    if i < 2048 { ScaledExact(i, 24, 0x100_0000); } else { ScaledExact(1024, 25, 0x200_0000); }
    InfinityValue();
    BelowInfinity(RoundUnbounded(i * 0x100_0000, 1));
  }

  lemma {:induction false} ScaledExact(i: nat, a: nat, c: nat)
    requires i < 2048 && Pow2(a) == c
    ensures HalfValue(RoundUnbounded(i * c, 1)) == i * c
  {
    IntegerExact(i, a, 0);
  }

  lemma {:induction false} BelowInfinity(h: nat)
    requires HalfValue(h) < HalfValue(INF)
    ensures h < INF
  {
    if h > INF { HalfValueIncreases(INF, h); }
  }

  /** 2049 lies halfway between 2048 and 2050 and goes to the even one. */
  lemma {:induction false} PositionsCollide()
    ensures F16OfInt(2049) == F16OfInt(2048)
  {
    Pow2Small();
    HalfwayRoundsDown(25, 0x100_0000);
  }

  lemma {:induction false} HalfwayRoundsDown(k: nat, c: nat)
    requires k > 0 && Pow2(k) == 2 * c
    ensures RoundUnbounded(2049 * c, 1) == RoundUnbounded(2048 * c, 1)
  {
    RoundUnboundedUnwind(2049 * c, 1, k);
    RoundUnboundedUnwind(2048 * c, 1, k);
    DivModUnique(2049 * c, 2 * c, 1024, c);
    DivModUnique(2048 * c, 2 * c, 1024, 0);
  }

  /** The half-precision positions tell all rows apart exactly up to 2049 of them. */
  lemma {:induction false} PositionsDistinct(seqLen: nat)
    ensures (forall i: nat, j: nat | i < j < seqLen :: F16OfInt(i) != F16OfInt(j)) <==> seqLen <= 2049
  {
    PositionsCollide();
    if seqLen <= 2049 {
      forall i: nat, j: nat | i < j < seqLen ensures F16OfInt(i) != F16OfInt(j) {
        PositionExact(i);
        PositionExact(j);
      }
    } else {
      assert F16OfInt(2048) == F16OfInt(2049);
    }
  }

  // ----- keys

  lemma {:induction false} KeyInjective(r: string, t: Table, s: string, u: Table)
    requires Key(r, t) == Key(s, u)
    ensures r == s && t == u
  {
    var k := Key(r, t);
    LastSlash("static_tables/" + r, TableName(t));
    LastSlash("static_tables/" + s, TableName(u));
    assert k[..|"static_tables/" + r|] == "static_tables/" + r;
    assert k[..|"static_tables/" + s|] == "static_tables/" + s;
    assert k[14..|"static_tables/" + r|] == r && k[14..|"static_tables/" + s|] == s;
    assert k[|"static_tables/" + r| + 1..] == TableName(t);
    assert k[|"static_tables/" + s| + 1..] == TableName(u);
  }

  lemma {:induction false} LastSlash(a: string, b: string)
    requires '/' !in b
    ensures RFind(a + "/" + b, "/", |a + "/" + b|) == Some(|a|)
  {
    var s := a + "/" + b;
    assert OccursAt(s, "/", |a|) by { assert s[|a|..|a| + 1] == "/"; }
    forall j | |a| < j <= |s| ensures !OccursAt(s, "/", j) {
      if j < |s| { assert s[j..j + 1][0] == b[j - |a| - 1]; }
    }
  }

  // ----- the cache

  type Entry = (string, Table)

  ghost function Entries(refs: set<string>, tables: set<Table>): set<Entry> {
    set r, t | r in refs && t in tables :: (r, t)
  }

  lemma {:induction false} EntriesGrow(refs: set<string>, ref: string, seqLen: nat)
    ensures Entries(refs, Tables(seqLen)) + {(ref, SinTab)} + {(ref, CosTab)}
            + (if seqLen <= 8192 then {(ref, EyeTab)} + {(ref, MaskTab)} else {})
            + {(ref, ArangeTab)} + {(ref, ArangeFp16Tab)}
         == Entries(refs + {ref}, Tables(seqLen))
    ensures ref in refs ==> Entries(refs + {ref}, Tables(seqLen)) == Entries(refs, Tables(seqLen))
    ensures (ref, SinTab) in Entries(refs, Tables(seqLen)) <==> ref in refs
  {
  }

  /** The cache holds the tables of `entries`, each under its key, and nothing else. */
  ghost predicate Holds(cache: map<string, WeightData>, config: RopeConfig, entries: set<Entry>) {
    && (forall e | e in entries :: Key(e.0, e.1) in cache && cache[Key(e.0, e.1)] == TableData(config, e.1))
    && (forall k | k in cache :: exists e :: e in entries && k == Key(e.0, e.1))
  }

  lemma {:induction false} InsertedHolds(cache: map<string, WeightData>, config: RopeConfig, entries: set<Entry>, ref: string, t: Table)
    requires Holds(cache, config, entries)
    ensures Holds(cache[Key(ref, t) := TableData(config, t)], config, entries + {(ref, t)})
  {
    var after, more := cache[Key(ref, t) := TableData(config, t)], entries + {(ref, t)};
    forall e | e in more ensures Key(e.0, e.1) in after && after[Key(e.0, e.1)] == TableData(config, e.1) {
      if Key(e.0, e.1) == Key(ref, t) { KeyInjective(e.0, e.1, ref, t); }
    }
    forall k | k in after ensures exists e :: e in more && k == Key(e.0, e.1) {
      if k in cache {
        var e :| e in entries && k == Key(e.0, e.1);
        assert e in more;
      } else {
        assert (ref, t) in more && k == Key((ref, t).0, (ref, t).1);
      }
    }
  }

  /** What a cache holds fixes it completely: neither the order in which the tables were
      computed nor repeated requests can be told from it. */
  lemma {:induction false} CacheDetermined(a: map<string, WeightData>, b: map<string, WeightData>, config: RopeConfig, entries: set<Entry>)
    requires Holds(a, config, entries) && Holds(b, config, entries)
    ensures a == b
  {
    forall k ensures k in a <==> k in b {
      if k in a { var e :| e in entries && k == Key(e.0, e.1); }
      if k in b { var e :| e in entries && k == Key(e.0, e.1); }
    }
    forall k | k in a ensures a[k] == b[k] {
      var e :| e in entries && k == Key(e.0, e.1);
    }
  }

  /** A table is cached under its key exactly when it is among the entries. */
  lemma {:induction false} CachedIff(cache: map<string, WeightData>, config: RopeConfig, entries: set<Entry>, ref: string, t: Table)
    requires Holds(cache, config, entries)
    ensures Key(ref, t) in cache <==> (ref, t) in entries
  {
    if Key(ref, t) in cache {
      var e :| e in entries && Key(ref, t) == Key(e.0, e.1);
      KeyInjective(ref, t, e.0, e.1);
    }
  }

  // ----- the resolver

  method FillHalfRow(f: (nat, nat) -> u16, cols: nat) returns (bytes: seq<byte>)
    ensures bytes == HalfRow(f, 0, cols)
  {
    bytes := [];
    for col := 0 to cols
      invariant bytes == HalfRow(f, 0, col)
    {
      bytes := bytes + U16ToLe(f(0, col));
    }
  }

  method FillHalfRows(f: (nat, nat) -> u16, rows: nat, cols: nat) returns (bytes: seq<byte>)
    ensures bytes == HalfRows(f, rows, cols)
  {
    bytes := [];
    for row := 0 to rows
      invariant bytes == HalfRows(f, row, cols)
    {
      ghost var above := bytes;
      for col := 0 to cols
        invariant bytes == above + HalfRow(f, row, col)
      {
        bytes := bytes + U16ToLe(f(row, col));
      }
    }
  }

  method FillWords(count: nat) returns (bytes: seq<byte>)
    ensures bytes == Words(count)
  {
    bytes := [];
    for i := 0 to count
      invariant bytes == Words(i)
    {
      bytes := bytes + U32ToLe(i % 0x1_0000_0000);
    }
  }

  class StaticTableResolver {
    const config: RopeConfig
    const parseF32: string -> Option<u32>
    var cache: map<string, WeightData>
    ghost var refs: set<string>

    /** Every name asked for has all of its tables cached, and no other name has any. */
    ghost predicate Valid()
      reads this
    {
      Holds(cache, config, Entries(refs, Tables(config.seqLen)))
    }

    constructor (config: RopeConfig, parseF32: string -> Option<u32>)
      ensures Valid() && refs == {} && cache == map[]
      ensures this.config == config && this.parseF32 == parseF32
    {
      this.config := config;
      this.parseF32 := parseF32;
      cache := map[];
      refs := {};
    }

    /** Compute and cache all tables of `ref`, unless its sine table is cached already. */
    method EnsureTablesComputed(ref: string)
      requires Valid() && config.Computable()
      modifies this
      ensures Valid() && refs == old(refs) + {ref}
      ensures ref in old(refs) ==> cache == old(cache)
    {
      EntriesGrow(refs, ref, config.seqLen);
      CachedIff(cache, config, Entries(refs, Tables(config.seqLen)), ref, SinTab);
      if Key(ref, SinTab) in cache {
        refs := refs + {ref};
        return;
      }
      ghost var entries := ComputeTables(ref, Entries(refs, Tables(config.seqLen)));
      refs := refs + {ref};
    }

    method ComputeTables(ref: string, ghost entries: set<Entry>) returns (ghost more: set<Entry>)
      requires Holds(cache, config, entries) && config.Computable()
      modifies this`cache
      ensures more == entries + {(ref, SinTab)} + {(ref, CosTab)}
                      + (if config.seqLen <= 8192 then {(ref, EyeTab)} + {(ref, MaskTab)} else {})
                      + {(ref, ArangeTab)} + {(ref, ArangeFp16Tab)}
      ensures Holds(cache, config, more)
    {
      more := ComputeRope(ref, entries);
      more := ComputeQuadratic(ref, more);
      more := ComputePositions(ref, more);
    }

    method ComputeRope(ref: string, ghost entries: set<Entry>) returns (ghost more: set<Entry>)
      requires Holds(cache, config, entries) && config.Computable()
      modifies this`cache
      ensures more == entries + {(ref, SinTab)} + {(ref, CosTab)}
      ensures Holds(cache, config, more)
    {
      var seqLen, hd := config.seqLen, config.headDim;
      var sinBytes := FillHalfRows(Sine(config), seqLen, hd);
      var cosBytes := FillHalfRows(Cosine(config), seqLen, hd);
      more := Insert(ref, SinTab, WeightData(sinBytes, [1, 1, seqLen, hd], Fp16), entries);
      more := Insert(ref, CosTab, WeightData(cosBytes, [1, 1, seqLen, hd], Fp16), more);
    }

    method ComputeQuadratic(ref: string, ghost entries: set<Entry>) returns (ghost more: set<Entry>)
      requires Holds(cache, config, entries)
      modifies this`cache
      ensures more == entries + if config.seqLen <= 8192 then {(ref, EyeTab)} + {(ref, MaskTab)} else {}
      ensures Holds(cache, config, more)
    {
      more := entries;
      if config.seqLen <= 8192 {
        more := ComputeMasks(ref, entries);
      }
    }

    method ComputeMasks(ref: string, ghost entries: set<Entry>) returns (ghost more: set<Entry>)
      requires Holds(cache, config, entries)
      modifies this`cache
      ensures more == entries + ({(ref, EyeTab)} + {(ref, MaskTab)})
      ensures Holds(cache, config, more)
    {
      var seqLen := config.seqLen;
      var eyeBytes := FillHalfRows(Identity(), seqLen, seqLen);
      var maskBytes := FillHalfRows(CausalMask(seqLen), seqLen, seqLen);
      more := Insert(ref, EyeTab, WeightData(eyeBytes, [seqLen, seqLen], Fp16), entries);
      more := Insert(ref, MaskTab, WeightData(maskBytes, [seqLen, seqLen], Fp16), more);
    }

    method ComputePositions(ref: string, ghost entries: set<Entry>) returns (ghost more: set<Entry>)
      requires Holds(cache, config, entries)
      modifies this`cache
      ensures more == entries + {(ref, ArangeTab)} + {(ref, ArangeFp16Tab)}
      ensures Holds(cache, config, more)
    {
      var seqLen := config.seqLen;
      var arangeBytes := FillWords(seqLen);
      var arangeFp16Bytes := FillHalfRow(Positions(), seqLen);
      more := Insert(ref, ArangeTab, WeightData(arangeBytes, [seqLen], Int32), entries);
      more := Insert(ref, ArangeFp16Tab, WeightData(arangeFp16Bytes, [seqLen], Fp16), more);
    }

    /** One `cache.insert`. */
    method Insert(ref: string, t: Table, data: WeightData, ghost entries: set<Entry>) returns (ghost more: set<Entry>)
      requires Holds(cache, config, entries)
      requires data == TableData(config, t)
      modifies this`cache
      ensures more == entries + {(ref, t)}
      ensures Holds(cache, config, more)
      ensures cache == old(cache)[Key(ref, t) := data]
    {
      InsertedHolds(cache, config, entries, ref, t);
      cache := cache[Key(ref, t) := data];
      more := entries + {(ref, t)};
    }

    /** `scalar://fp16/...` and `scalar://fp32/...` name one-element constants. */
    function ResolveScalar(path: string): Option<WeightData> {
      match StripPrefix(path, "scalar://fp16/")
      case Some(rest) => (
        match parseF32(rest)
        case Some(bits) => Some(WeightData(U16ToLe(F16FromF32(bits)), [1], Fp16))
        case None => None)
      case None =>
        match StripPrefix(path, "scalar://fp32/")
        case Some(rest) => (
          match parseF32(rest)
          case Some(bits) => Some(WeightData(U32ToLe(bits), [1], Fp32))
          case None => None)
        case None => None
    }

    function Resolve(path: string): (r: Option<WeightData>)
      requires Valid()
      reads this
      ensures r.None? <==> path !in cache && ResolveScalar(path).None?
      ensures path in cache ==> r == Some(cache[path])
    {
      if path in cache then Some(cache[path]) else ResolveScalar(path)
    }
  }

  /** Whatever was requested before, a table of a requested name resolves to its definition,
      and a table of any other name is not cached. */
  lemma {:induction false} ResolvesTables(tables: StaticTableResolver, ref: string, t: Table)
    requires tables.Valid()
    ensures Key(ref, t) in tables.cache <==> ref in tables.refs && t in Tables(tables.config.seqLen)
    ensures ref in tables.refs && t in Tables(tables.config.seqLen)
            ==> tables.Resolve(Key(ref, t)) == Some(TableData(tables.config, t))
  {
    var entries := Entries(tables.refs, Tables(tables.config.seqLen));
    CachedIff(tables.cache, tables.config, entries, ref, t);
    assert (ref, t) in entries <==> ref in tables.refs && t in Tables(tables.config.seqLen);
    if (ref, t) in entries { assert tables.cache[Key((ref, t).0, (ref, t).1)] == TableData(tables.config, t); }
  }

  /** Static tables first, the model's own weights otherwise. */
  class ChainedResolver {
    const staticTables: StaticTableResolver
    const fallback: Resolver

    constructor (staticTables: StaticTableResolver, fallback: Resolver)
      ensures this.staticTables == staticTables && this.fallback == fallback
    {
      this.staticTables := staticTables;
      this.fallback := fallback;
    }

    /** Any run of requests leaves exactly the tables of the names requested. */
    method PrecomputeTables(tablesRefs: seq<string>)
      requires staticTables.Valid() && staticTables.config.Computable()
      modifies staticTables
      ensures staticTables.Valid()
      ensures staticTables.refs == old(staticTables.refs) + (set r | r in tablesRefs)
    {
      for i := 0 to |tablesRefs|
        invariant staticTables.Valid()
        invariant staticTables.refs == old(staticTables.refs) + (set r | r in tablesRefs[..i])
      {
        staticTables.EnsureTablesComputed(tablesRefs[i]);
        assert tablesRefs[..i + 1] == tablesRefs[..i] + [tablesRefs[i]];
      }
      assert tablesRefs[..|tablesRefs|] == tablesRefs;
    }

    function Resolve(path: string): (r: Option<WeightData>)
      requires staticTables.Valid()
      reads staticTables
      ensures path !in staticTables.cache && staticTables.ResolveScalar(path).None? ==> r == fallback(path)
      ensures path in staticTables.cache || staticTables.ResolveScalar(path).Some? ==> r == staticTables.Resolve(path) && r.Some?
    {
      match staticTables.Resolve(path)
      case Some(data) => Some(data)
      case None => fallback(path)
    }
  }
}
