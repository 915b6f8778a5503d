/** What each path of a static table or a scalar resolves to, with the path written out. */
module TablePaths {
  import opened Wrappers
  import opened Arithmetic
  import opened Strings
  import opened Bytes
  import opened Half
  import opened Narrowing
  import opened Weights
  import opened StaticTables

  /** Element `k` of a buffer of 16-bit words, the low byte first. */
  ghost predicate HalfAt(data: seq<byte>, k: nat, h: nat) {
    2 * k + 1 < |data| && data[2 * k] as int + 256 * data[2 * k + 1] as int == h
  }

  /** Element `k` of a buffer of 32-bit words, the low byte first. */
  ghost predicate WordAt(data: seq<byte>, k: nat, w: nat) {
    && 4 * k + 3 < |data|
    && data[4 * k] as int + 256 * (data[4 * k + 1] as int + 256 * (data[4 * k + 2] as int + 256 * data[4 * k + 3] as int)) == w
  }

  ghost predicate Requested(tables: StaticTableResolver, ref: string)
    reads tables
  {
    tables.Valid() && ref in tables.refs
  }

  /** The frequency of a column: both halves of a row have the same. */
  ghost function FrequencyOf(headDim: nat, i: nat): nat { if headDim < 2 then 0 else i % (headDim / 2) }

  /** A half-precision table of this many rows and columns whose entries are those of `f`. */
  ghost predicate IsTable(r: Option<WeightData>, shape: seq<nat>, rows: nat, cols: nat, f: (nat, nat) -> u16) {
    && r.Some? && r.value.shape == shape && r.value.dtype == Fp16 && |r.value.data| == 2 * (rows * cols)
    && forall row: nat, col: nat | row < rows && col < cols :: HalfAt(r.value.data, row * cols + col, f(row, col))
  }

  lemma {:induction false} RowsAreTable(f: (nat, nat) -> u16, g: (nat, nat) -> u16, rows: nat, cols: nat, shape: seq<nat>)
    requires forall row: nat, col: nat | row < rows && col < cols :: f(row, col) == g(row, col)
    ensures IsTable(Some(WeightData(HalfRows(f, rows, cols), shape, Fp16)), shape, rows, cols, g)
  {
    HalfRowsLength(f, rows, cols);
    forall row: nat, col: nat | row < rows && col < cols ensures HalfAt(HalfRows(f, rows, cols), row * cols + col, g(row, col)) {
      HalfRowsAt(f, rows, cols, row, col);
    }
  }

  // ----- paths

  lemma {:induction false} PathJoined(ref: string, t: Table, tail: string)
    requires tail == "/" + TableName(t)
    ensures "static_tables/" + ref + tail == Key(ref, t)
  {
    JoinAssoc("static_tables/" + ref, "/", TableName(t));
  }

  /** What a path leads to, as the tables stand. */
  lemma {:induction false} PathResolves(tables: StaticTableResolver, ref: string, t: Table, tail: string)
    requires Requested(tables, ref) && tail == "/" + TableName(t)
    ensures tables.Resolve("static_tables/" + ref + tail)
         == if t in Tables(tables.config.seqLen) then Some(TableData(tables.config, t)) else None
  {
    PathJoined(ref, t, tail);
    ResolvesTables(tables, ref, t);
    NoScalar(tables, ref, t);
  }

  /** A path of a table is no scalar. */
  lemma {:induction false} NoScalar(tables: StaticTableResolver, ref: string, t: Table)
    ensures tables.ResolveScalar(Key(ref, t)) == None
  {
    assert Key(ref, t)[1] == 't' && "scalar://fp16/"[1] == 'c' && "scalar://fp32/"[1] == 'c';
  }

  // ----- sine and cosine

  ghost function SineOf(c: RopeConfig): (nat, nat) -> u16 { (pos, i) => c.sin(pos, FrequencyOf(c.headDim, i)) }

  ghost function CosineOf(c: RopeConfig): (nat, nat) -> u16 { (pos, i) => c.cos(pos, FrequencyOf(c.headDim, i)) }

  /** Once requested, `static_tables/<ref>/sin_tab` holds the sine of every position at every
      column's frequency. */
  lemma {:induction false} SinePath(tables: StaticTableResolver, ref: string)
    requires Requested(tables, ref)
    ensures var c := tables.config;
      IsTable(tables.Resolve("static_tables/" + ref + "/sin_tab"), [1, 1, c.seqLen, c.headDim], c.seqLen, c.headDim, SineOf(c))
  {
    var c := tables.config;
    PathResolves(tables, ref, SinTab, "/sin_tab");
    forall pos: nat, i: nat ensures Sine(c)(pos, i) == SineOf(c)(pos, i) {
      assert Frequency(c, i) == FrequencyOf(c.headDim, i);
    }
    RowsAreTable(Sine(c), SineOf(c), c.seqLen, c.headDim, [1, 1, c.seqLen, c.headDim]);
  }

  lemma {:induction false} CosinePath(tables: StaticTableResolver, ref: string)
    requires Requested(tables, ref)
    ensures var c := tables.config;
      IsTable(tables.Resolve("static_tables/" + ref + "/cos_tab"), [1, 1, c.seqLen, c.headDim], c.seqLen, c.headDim, CosineOf(c))
  {
    var c := tables.config;
    PathResolves(tables, ref, CosTab, "/cos_tab");
    forall pos: nat, i: nat ensures Cosine(c)(pos, i) == CosineOf(c)(pos, i) {
      assert Frequency(c, i) == FrequencyOf(c.headDim, i);
    }
    RowsAreTable(Cosine(c), CosineOf(c), c.seqLen, c.headDim, [1, 1, c.seqLen, c.headDim]);
  }

  // ----- the quadratic tables

  /** The pattern of 1.0, of 0.0 and of minus infinity. */
  lemma {:induction false} Patterns()
    ensures HalfValue(0x3C00) == 0x100_0000 && HalfValue(0) == 0
    ensures 0xFC00 == SIGN + INF
  {
    HalfValueFields(15, 0);
    HalfValueFields(0, 0);
    Pow2Small();
    assert Pow2(14) == 0x4000;
  }

  /** Once requested, up to 8192 positions, `eye_tab` holds 1.0 on the diagonal and 0.0 elsewhere. */
  lemma {:induction false} EyePath(tables: StaticTableResolver, ref: string)
    requires Requested(tables, ref)
    ensures var (n, r) := (tables.config.seqLen, tables.Resolve("static_tables/" + ref + "/eye_tab"));
      if n <= 8192 then IsTable(r, [n, n], n, n, (row, col) => if row == col then 0x3C00 else 0) else r == None
  {
    var n := tables.config.seqLen;
    PathResolves(tables, ref, EyeTab, "/eye_tab");
    RowsAreTable(Identity(), (row, col) => if row == col then 0x3C00 else 0, n, n, [n, n]);
  }

  /** Once requested, up to 8192 positions, row `row` of `mask_tab` holds 0.0 in its last `row + 1`
      columns and minus infinity before. */
  lemma {:induction false} MaskPath(tables: StaticTableResolver, ref: string)
    requires Requested(tables, ref)
    ensures var (n, r) := (tables.config.seqLen, tables.Resolve("static_tables/" + ref + "/mask_tab"));
      if n <= 8192 then IsTable(r, [n, n], n, n, (row, col) => if col + (row + 1) >= n then 0 else 0xFC00) else r == None
  {
    var n := tables.config.seqLen;
    PathResolves(tables, ref, MaskTab, "/mask_tab");
    RowsAreTable(CausalMask(n), (row, col) => if col + (row + 1) >= n then 0 else 0xFC00, n, n, [n, n]);
  }

  // ----- positions

  /** Once requested, `arange_tab` counts in 32-bit words and `arange_fp16_tab` in half precision,
      correctly rounded. */
  lemma {:induction false} ArangePath(tables: StaticTableResolver, ref: string)
    requires Requested(tables, ref)
    ensures var (n, r) := (tables.config.seqLen, tables.Resolve("static_tables/" + ref + "/arange_tab"));
      && r.Some? && r.value.shape == [n] && r.value.dtype == Int32 && |r.value.data| == 4 * n
      && forall i: nat | i < n :: WordAt(r.value.data, i, i % 0x1_0000_0000)
  {
    var n := tables.config.seqLen;
    PathResolves(tables, ref, ArangeTab, "/arange_tab");
    forall i: nat | i < n ensures WordAt(Words(n), i, i % 0x1_0000_0000) { WordsAt(n, i); }
  }

  lemma {:induction false} HalfArangePath(tables: StaticTableResolver, ref: string)
    requires Requested(tables, ref)
    ensures var (n, r) := (tables.config.seqLen, tables.Resolve("static_tables/" + ref + "/arange_fp16_tab"));
      && r.Some? && r.value.shape == [n] && r.value.dtype == Fp16 && |r.value.data| == 2 * n
      && forall i: nat | i < n :: HalfAt(r.value.data, i, F16OfInt(i)) && NearestEven(i * 0x100_0000, 1, F16OfInt(i))
  {
    var n := tables.config.seqLen;
    PathResolves(tables, ref, ArangeFp16Tab, "/arange_fp16_tab");
    forall i: nat | i < n ensures HalfAt(HalfRow(Positions(), 0, n), i, F16OfInt(i)) { HalfRowAt(Positions(), 0, n, i); }
    forall i: nat | i < n ensures NearestEven(i * 0x100_0000, 1, F16OfInt(i)) { RoundToHalfNearest(i * 0x100_0000, 1); }
  }

  // ----- scalars

  /** `scalar://fp16/<text>` is one element, the number read rounded to half precision, and
      `scalar://fp32/<text>` the number itself; there is none if the text is no number. */
  lemma {:induction false} ScalarPaths(tables: StaticTableResolver, text: string)
    requires tables.Valid()
    ensures var (r, bits) := (tables.Resolve("scalar://fp16/" + text), tables.parseF32(text));
      if bits.None? then r == None
      else r.Some? && r.value.shape == [1] && r.value.dtype == Fp16 && |r.value.data| == 2 && HalfAt(r.value.data, 0, F16FromF32(bits.value))
    ensures var (r, bits) := (tables.Resolve("scalar://fp32/" + text), tables.parseF32(text));
      if bits.None? then r == None
      else r.Some? && r.value.shape == [1] && r.value.dtype == Fp32 && |r.value.data| == 4 && WordAt(r.value.data, 0, bits.value)
  {
    NotCached(tables, "scalar://fp16/" + text);
    NotCached(tables, "scalar://fp32/" + text);
    assert ("scalar://fp16/" + text)[14..] == text && ("scalar://fp32/" + text)[14..] == text;
    assert ("scalar://fp32/" + text)[11] == '3' && "scalar://fp16/"[11] == '1';
  }

  lemma {:induction false} NotCached(tables: StaticTableResolver, path: string)
    requires tables.Valid() && |path| > 1 && path[1] == 'c'
    ensures path !in tables.cache
  {
    forall ref, t ensures Key(ref, t)[1] == 't' {}
  }
}
