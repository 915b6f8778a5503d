/** Loaded tensors and the virtual shards of a weight (`safetensors_resolver.rs`). */
module Shards {
  import opened Wrappers
  import opened Arithmetic
  import opened Strings
  import opened Bytes
  import opened Weights

  const TARGET_SHARD_COUNT: nat := 8

  // ----- names

  /** `<prefix>.shard_<N>.weight` to `(<prefix>.weight, N)`. */
  function ParseShardWeightName(path: string): Option<(string, nat)> {
    if !Contains(path, ".shard_") || !EndsWith(path, ".weight") then None
    else
      var stem := path[..|path| - |".weight"|];
      match RFind(stem, ".shard_", |stem|)
      case None => None
      case Some(start) =>
        match ParseUsize(stem[start + |".shard_"|..])
        case None => None
        case Some(index) => Some((stem[..start] + ".weight", index))
  }

  function ShardWeightName(prefix: string, digits: string): string {
    prefix + ".shard_" + digits + ".weight"
  }

  lemma {:induction false} ShardStem(prefix: string, digits: string)
    ensures EndsWith(ShardWeightName(prefix, digits), ".weight")
    ensures ShardWeightName(prefix, digits)[..|ShardWeightName(prefix, digits)| - |".weight"|]
         == prefix + ".shard_" + digits
    ensures Contains(ShardWeightName(prefix, digits), ".shard_")
  {
    var path, stem := ShardWeightName(prefix, digits), prefix + ".shard_" + digits;
    assert path == stem + ".weight";
    assert OccursAt(path, ".shard_", |prefix|) by {
      assert path == prefix + (".shard_" + digits + ".weight");
    }
  }

  /** After the marker there is no later one when no dot follows. */
  lemma {:induction false} LastMarker(prefix: string, tail: string)
    requires '.' !in tail
    ensures RFind(prefix + ".shard_" + tail, ".shard_", |prefix + ".shard_" + tail|) == Some(|prefix|)
  {
    var stem := prefix + ".shard_" + tail;
    assert OccursAt(stem, ".shard_", |prefix|) by { assert stem[|prefix|..|prefix| + 7] == ".shard_"; }
    forall j | |prefix| < j <= |stem| ensures !OccursAt(stem, ".shard_", j) {
      if j + 7 <= |stem| {
        assert stem[j..j + 7][0] == stem[j] == (".shard_" + tail)[j - |prefix|];
        assert (".shard_" + tail)[1..] == "shard_" + tail;
        assert (".shard_" + tail)[j - |prefix|] == ("shard_" + tail)[j - |prefix| - 1];
      }
    }
  }

  /** The parser inverts the printer, whatever the prefix contains. */
  lemma {:induction false} ParseInvertsPrint(prefix: string, n: nat)
    requires n <= USIZE_MAX
    ensures ParseShardWeightName(ShardWeightName(prefix, Decimal(n))) == Some((prefix + ".weight", n))
  {
    ShardStem(prefix, Decimal(n));
    LastMarker(prefix, Decimal(n));
    ParseDecimal(n);
    var stem := prefix + ".shard_" + Decimal(n);
    assert stem[..|prefix|] == prefix;
    assert stem[|prefix| + 7..] == Decimal(n);
  }

  /** A name that parses is a printed name, up to leading zeros or a leading plus sign. */
  lemma {:induction false} ParsedNameIsPrinted(path: string) returns (prefix: string, plus: string, k: nat)
    requires ParseShardWeightName(path).Some?
    ensures plus == "" || plus == "+"
    ensures ParseShardWeightName(path).value.0 == prefix + ".weight"
    ensures ParseShardWeightName(path).value.1 <= USIZE_MAX
    ensures path == ShardWeightName(prefix, plus + ZeroDigits(k) + Decimal(ParseShardWeightName(path).value.1))
  {
    var digits;
    prefix, digits := ParsedParts(path);
    plus, k := ParsedDigits(digits);
  }

  lemma {:induction false} ParsedParts(path: string) returns (prefix: string, digits: string)
    requires ParseShardWeightName(path).Some?
    ensures path == ShardWeightName(prefix, digits)
    ensures ParseUsize(digits).Some? && ParseUsize(digits).value <= USIZE_MAX
    ensures ParseShardWeightName(path) == Some((prefix + ".weight", ParseUsize(digits).value))
  {
    var stem := path[..|path| - 7];
    var start := RFind(stem, ".shard_", |stem|).value;
    prefix, digits := stem[..start], stem[start + 7..];
    Reassembled(path, start);
    assert path[..start] == prefix && path[start + 7..|path| - 7] == digits;
  }

  lemma {:induction false} Reassembled(path: string, start: nat)
    requires EndsWith(path, ".weight")
    requires OccursAt(path[..|path| - 7], ".shard_", start)
    ensures path == ShardWeightName(path[..start], path[start + 7..|path| - 7])
  {
    var stem := path[..|path| - 7];
    assert stem == stem[..start] + stem[start..start + 7] + stem[start + 7..];
    assert path == stem + path[|path| - 7..];
  }

  lemma {:induction false} ParsedDigits(digits: string) returns (plus: string, k: nat)
    requires ParseUsize(digits).Some?
    ensures plus == "" || plus == "+"
    ensures digits == plus + ZeroDigits(k) + Decimal(ParseUsize(digits).value)
  {
    if digits != "" && digits[0] == '+' {
      plus := "+";
      k := LeadingZeros(digits[1..]);
      JoinAssoc("+", ZeroDigits(k), Decimal(DigitsValue(digits[1..])));
      assert digits == "+" + digits[1..];
    } else {
      plus := "";
      k := LeadingZeros(digits);
      assert "" + ZeroDigits(k) == ZeroDigits(k);
    }
  }

  // ----- slicing

  function ShardSize(vocab: nat): (s: nat)
    ensures s > 0
  {
    if vocab / TARGET_SHARD_COUNT > 1 then vocab / TARGET_SHARD_COUNT else 1
  }

  /** Bytes of one element, from the length of the data; two for a tensor without elements. */
  function ElementBytes(entry: WeightData): nat
    requires |entry.shape| == 2
  {
    var total := entry.shape[0] * entry.shape[1];
    if total > 0 then |entry.data| / total else 2
  }

  function RowBytes(entry: WeightData): nat
    requires |entry.shape| == 2
  {
    entry.shape[1] * ElementBytes(entry)
  }

  function ByteOfRow(entry: WeightData, row: nat): nat
    requires |entry.shape| == 2
  {
    row * RowBytes(entry)
  }

  function StartRow(vocab: nat, index: nat): nat { index * ShardSize(vocab) }

  /** The rows of shard `index` of a two-dimensional tensor. */
  function ResolveShard(entry: WeightData, index: nat): Option<WeightData> {
    if |entry.shape| != 2 then None
    else
      var vocab := entry.shape[0];
      var startRow := StartRow(vocab, index);
      var endRow := Min(startRow + ShardSize(vocab), vocab);
      if startRow >= vocab then None
      else
        var startByte, endByte := ByteOfRow(entry, startRow), ByteOfRow(entry, endRow);
        if startByte <= endByte <= |entry.data| then
          Some(WeightData(entry.data[startByte..endByte], [endRow - startRow, entry.shape[1]], entry.dtype))
        else None
  }

  /** A table of tensors by name, and the virtual shards of those tensors. */
  function Resolve(tensors: map<string, WeightData>, path: string): Option<WeightData> {
    if path in tensors then Some(tensors[path])
    else
      match ParseShardWeightName(path)
      case None => None
      case Some((base, index)) => if base in tensors then ResolveShard(tensors[base], index) else None
  }

  // ----- the shards of a tensor partition it

  /** The number of shards before one is out of range. */
  ghost function ShardCount(vocab: nat): nat {
    (vocab + ShardSize(vocab) - 1) / ShardSize(vocab)
  }

  lemma {:induction false} MulOrder(a: nat, b: nat, c: nat)
    requires a <= b
    ensures a * c <= b * c
  {
    MulMonotone(a, b, c, c);
  }

  lemma {:induction false} RowsFit(entry: WeightData)
    requires |entry.shape| == 2
    ensures entry.shape[0] * RowBytes(entry) <= |entry.data|
            || (entry.shape[1] == 0 && entry.shape[0] * RowBytes(entry) == 0)
  {
    var v, h, w := entry.shape[0], entry.shape[1], ElementBytes(entry);
    assert v * (h * w) == v * h * w;
    if v * h > 0 {
      assert |entry.data| == v * h * w + |entry.data| % (v * h);
    } else {
      assert v * h * w == 0;
    }
  }

  lemma {:induction false} InRange(vocab: nat, k: nat)
    ensures k < ShardCount(vocab) <==> k * ShardSize(vocab) < vocab
  {
    var s, n := ShardSize(vocab), ShardCount(vocab);
    var r := (vocab + s - 1) % s;
    assert vocab + s - 1 == n * s + r;
    if k < n {
      MulOrder(k, n - 1, s);
      assert (n - 1) * s == n * s - s;
    } else {
      MulOrder(n, k, s);
    }
  }

  /** Shard `k` exists exactly while `k` is below the shard count, and then it holds the rows
      that follow those of the shards before it. */
  lemma {:induction false} ShardRows(entry: WeightData, k: nat)
    requires |entry.shape| == 2
    ensures ResolveShard(entry, k).Some? <==> k < ShardCount(entry.shape[0])
    ensures k < ShardCount(entry.shape[0]) ==>
      var (s, v) := (ShardSize(entry.shape[0]), entry.shape[0]);
      && k * s <= Min((k + 1) * s, v)
      && ResolveShard(entry, k).value.shape == [Min((k + 1) * s, v) - k * s, entry.shape[1]]
      && k * s * RowBytes(entry) <= Min((k + 1) * s, v) * RowBytes(entry) <= |entry.data|
      && ResolveShard(entry, k).value.data
         == entry.data[k * s * RowBytes(entry)..Min((k + 1) * s, v) * RowBytes(entry)]
      && ResolveShard(entry, k).value.dtype == entry.dtype
  {
    var s, v := ShardSize(entry.shape[0]), entry.shape[0];
    InRange(v, k);
    assert (k + 1) * s == k * s + s;
    if k < ShardCount(v) {
      var e := Min((k + 1) * s, v);
      RowsFit(entry);
      MulOrder(k * s, e, RowBytes(entry));
      MulOrder(e, v, RowBytes(entry));
    }
  }

  /** The data of shards `k`, `k + 1`, ... up to the first one out of range. */
  ghost function ShardsFrom(entry: WeightData, k: nat): seq<byte>
    requires |entry.shape| == 2
    decreases ShardCount(entry.shape[0]) - k
  {
    ShardRows(entry, k);
    match ResolveShard(entry, k)
    case None => []
    case Some(shard) => shard.data + ShardsFrom(entry, k + 1)
  }

  ghost function RowsFrom(entry: WeightData, k: nat): nat
    requires |entry.shape| == 2
    decreases ShardCount(entry.shape[0]) - k
  {
    ShardRows(entry, k);
    match ResolveShard(entry, k)
    case None => 0
    case Some(shard) => shard.shape[0] + RowsFrom(entry, k + 1)
  }

  /** The first row of shard `k`, and its first byte. */
  ghost function FirstRow(vocab: nat, k: nat): nat { Min(k * ShardSize(vocab), vocab) }

  ghost function FirstByte(entry: WeightData, k: nat): nat
    requires |entry.shape| == 2
  {
    FirstRow(entry.shape[0], k) * RowBytes(entry)
  }

  ghost function AllBytes(entry: WeightData): nat
    requires |entry.shape| == 2
  {
    entry.shape[0] * RowBytes(entry)
  }

  lemma {:induction false} FirstShard(entry: WeightData, k: nat)
    requires |entry.shape| == 2
    ensures FirstByte(entry, k) <= FirstByte(entry, k + 1) <= AllBytes(entry) <= |entry.data|
    ensures k >= ShardCount(entry.shape[0]) ==>
      && ShardsFrom(entry, k) == [] && RowsFrom(entry, k) == 0
      && FirstByte(entry, k) == AllBytes(entry) && FirstRow(entry.shape[0], k) == entry.shape[0]
    ensures k < ShardCount(entry.shape[0]) ==>
      && ShardsFrom(entry, k) == entry.data[FirstByte(entry, k)..FirstByte(entry, k + 1)] + ShardsFrom(entry, k + 1)
      && RowsFrom(entry, k) == FirstRow(entry.shape[0], k + 1) - FirstRow(entry.shape[0], k) + RowsFrom(entry, k + 1)
  {
    var v, s, b := entry.shape[0], ShardSize(entry.shape[0]), RowBytes(entry);
    ShardRows(entry, k);
    InRange(v, k);
    RowsFit(entry);
    MulOrder(k, k + 1, s);
    MulOrder(FirstRow(v, k), FirstRow(v, k + 1), b);
    MulOrder(FirstRow(v, k + 1), v, b);
  }

  lemma {:induction false} ShardsFromIs(entry: WeightData, k: nat)
    requires |entry.shape| == 2
    ensures FirstByte(entry, k) <= AllBytes(entry) <= |entry.data|
    ensures ShardsFrom(entry, k) == entry.data[FirstByte(entry, k)..AllBytes(entry)]
    ensures RowsFrom(entry, k) == entry.shape[0] - FirstRow(entry.shape[0], k)
    decreases ShardCount(entry.shape[0]) - k
  {
    FirstShard(entry, k);
    if k < ShardCount(entry.shape[0]) {
      ShardsFromIs(entry, k + 1);
      Slices(entry.data, FirstByte(entry, k), FirstByte(entry, k + 1), AllBytes(entry));
    }
  }

  lemma {:induction false} Slices(data: seq<byte>, lo: nat, mid: nat, hi: nat)
    requires lo <= mid <= hi <= |data|
    ensures data[lo..mid] + data[mid..hi] == data[lo..hi]
  {
  }

  /** Concatenating the shards gives the tensor back, and their rows add up to the vocabulary;
      bytes are lost exactly when the data is not a whole number of bytes per element. */
  lemma {:induction false} ShardsPartition(entry: WeightData)
    requires |entry.shape| == 2
    ensures RowsFrom(entry, 0) == entry.shape[0]
    ensures ShardsFrom(entry, 0) == entry.data
            <==> exists width: nat :: |entry.data| == entry.shape[0] * entry.shape[1] * width
  {
    ShardsFromIs(entry, 0);
    WholeWidth(entry);
    assert FirstByte(entry, 0) == 0;
    assert |entry.data[..AllBytes(entry)]| == AllBytes(entry);
  }

  lemma {:induction false} WholeWidth(entry: WeightData)
    requires |entry.shape| == 2
    ensures AllBytes(entry) == |entry.data|
            <==> exists width: nat :: |entry.data| == entry.shape[0] * entry.shape[1] * width
  {
    var v, h, w := entry.shape[0], entry.shape[1], ElementBytes(entry);
    Assoc(v, h, w);
    assert AllBytes(entry) == v * h * w;
    if width: nat :| |entry.data| == v * h * width {
      if v * h > 0 { ExactMultiple(|entry.data|, v * h, width); }
    }
  }

  /** One shard per row below 8 rows; from 8 to 15 shards above, and 8 exactly when 8 divides. */
  lemma {:induction false} ShardCounts(vocab: nat)
    ensures vocab < 8 ==> ShardCount(vocab) == vocab
    ensures vocab >= 8 ==> 8 <= ShardCount(vocab) <= 15
    ensures vocab >= 8 ==> (ShardCount(vocab) == 8 <==> vocab % 8 == 0)
  {
    if vocab < 8 {
      assert ShardSize(vocab) == 1;
    } else {
      var q, r := vocab / 8, vocab % 8;
      assert ShardSize(vocab) == q && vocab == 8 * q + r;
      InRange(vocab, 7);
      InRange(vocab, 8);
      InRange(vocab, 15);
      assert ShardCount(vocab) == 8 <==> r == 0;
    }
  }

  /** The names of the shards of `<prefix>.weight`, resolved one after the other. */
  ghost function ResolvedFrom(tensors: map<string, WeightData>, prefix: string, k: nat, limit: nat): seq<byte>
    decreases limit - k
  {
    if k >= limit then []
    else match Resolve(tensors, ShardWeightName(prefix, Decimal(k)))
         case None => []
         case Some(shard) => shard.data + ResolvedFrom(tensors, prefix, k + 1, limit)
  }

  /** Looking the printed shard names up in a table that stores only the whole weight gives
      that weight back, byte for byte. */
  lemma {:induction false} ShardNamesCoverWeight(tensors: map<string, WeightData>, prefix: string, width: nat)
    requires prefix + ".weight" in tensors && |tensors[prefix + ".weight"].shape| == 2
    requires forall n: nat :: ShardWeightName(prefix, Decimal(n)) !in tensors
    requires var entry := tensors[prefix + ".weight"]; |entry.data| == entry.shape[0] * entry.shape[1] * width
    ensures ResolvedFrom(tensors, prefix, 0, USIZE_MAX) == tensors[prefix + ".weight"].data
  {
    var entry := tensors[prefix + ".weight"];
    ShardCounts(entry.shape[0]);
    assert ShardCount(entry.shape[0]) <= 15;
    ResolvedFromIs(tensors, prefix, 0);
    ShardsPartition(entry);
  }

  lemma {:induction false} ResolvedFromIs(tensors: map<string, WeightData>, prefix: string, k: nat)
    requires prefix + ".weight" in tensors && |tensors[prefix + ".weight"].shape| == 2
    requires forall n: nat :: ShardWeightName(prefix, Decimal(n)) !in tensors
    requires k <= ShardCount(tensors[prefix + ".weight"].shape[0]) < USIZE_MAX
    ensures ResolvedFrom(tensors, prefix, k, USIZE_MAX) == ShardsFrom(tensors[prefix + ".weight"], k)
    decreases ShardCount(tensors[prefix + ".weight"].shape[0]) - k
  {
    var entry := tensors[prefix + ".weight"];
    ParseInvertsPrint(prefix, k);
    ShardRows(entry, k);
    if k < ShardCount(entry.shape[0]) {
      ResolvedFromIs(tensors, prefix, k + 1);
    }
  }

  /** A name written out, and what it is read as. */
  lemma {:induction false} WrittenNameParses(prefix: string, n: nat)
    requires n < 0x1_0000_0000_0000_0000
    ensures ParseShardWeightName(prefix + ".shard_" + Decimal(n) + ".weight") == Some((prefix + ".weight", n))
  {
    ParseInvertsPrint(prefix, n);
  }

  /** A loaded tensor is found by its own name, even one that reads like a shard's; a shard's name
      otherwise leads to rows of its weight, and any other name to nothing. */
  lemma {:induction false} LoadedFirst(tensors: map<string, WeightData>, path: string)
    ensures path in tensors ==> Resolve(tensors, path) == Some(tensors[path])
    ensures path !in tensors && ParseShardWeightName(path).None? ==> Resolve(tensors, path) == None
  {
  }

  lemma {:induction false} ShardOfLoaded(tensors: map<string, WeightData>, prefix: string, n: nat)
    requires n < 0x1_0000_0000_0000_0000 && prefix + ".shard_" + Decimal(n) + ".weight" !in tensors
    ensures Resolve(tensors, prefix + ".shard_" + Decimal(n) + ".weight")
         == if prefix + ".weight" in tensors then ResolveShard(tensors[prefix + ".weight"], n) else None
  {
    WrittenNameParses(prefix, n);
  }
}
