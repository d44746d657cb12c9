/** Planning a model over several devices: contiguous runs of layers, and the bytes each device holds. */
module LayerPartitions {
  import opened Basics

  type Device = int

  // Zero is the CPU.
  predicate IsGpu(d: Device) {
    d > 0
  }

  datatype Status = OK | InvalidArgument | InvalidDevice | LoadFailed | LengthError
  datatype Partition = Partition(device: Device, firstLayer: int, lastLayer: int, weightBytes: nat)

  /* ---------------------------------- the boundaries ---------------------------------- */

  // The first layer of partition i of `count`, and the end of partition i - 1.
  function Bound(layers: nat, count: nat, i: nat): nat
    requires count > 0
  {
    layers * i / count
  }

  lemma QuotientOfSum(a: nat, b: nat, d: nat)
    requires d > 0
    ensures a / d + b / d <= (a + b) / d <= a / d + b / d + 1
  {
    var q, r := a / d + b / d, a % d + b % d;
    assert a + b == q * d + r;
    if r < d {
      DivisionIs(a + b, d, q, r);
    } else {
      DivisionIs(a + b, d, q + 1, r - d);
    }
  }

  /** Every partition has the average number of layers, rounded down or up; with no more devices than
      layers none is empty. */
  lemma PartitionSize(layers: nat, count: nat, i: nat)
    requires count > 0
    ensures var size := Bound(layers, count, i + 1) - Bound(layers, count, i);
            && layers / count <= size <= layers / count + 1
            && (count <= layers ==> size >= 1)
  {
    assert layers * (i + 1) == layers * i + layers;
    QuotientOfSum(layers * i, layers, count);
    if count <= layers {
      QuotientOfSum(count, layers - count, count);
      DivisionIs(count, count, 1, 0);
    }
  }

  lemma Ends(layers: nat, count: nat)
    requires count > 0
    ensures Bound(layers, count, 0) == 0 && Bound(layers, count, count) == layers
  {
    DivisionIs(layers * 0, count, 0, 0);
    DivisionIs(layers * count, count, layers, 0);
  }

  lemma {:induction false} BoundsAscend(layers: nat, count: nat, i: nat, j: nat)
    requires count > 0 && i <= j
    ensures Bound(layers, count, i) <= Bound(layers, count, j)
    decreases j - i
  {
    hide Bound;
    if i < j {
      PartitionSize(layers, count, i);
      BoundsAscend(layers, count, i + 1, j);
    }
  }

  ghost predicate Holds(layers: nat, count: nat, i: nat, layer: nat)
    requires count > 0
  {
    Bound(layers, count, i) <= layer < Bound(layers, count, i + 1)
  }

  // The run of partition i as the source's two divisions give it, written without a division.
  ghost predicate InShare(layers: nat, count: nat, i: nat, layer: nat) {
    layers * i < count * (layer + 1) <= layers * (i + 1)
  }

  lemma QuotientBounds(a: nat, d: nat, x: nat)
    requires d > 0
    ensures a / d <= x <==> a < d * (x + 1)
    ensures x < a / d <==> d * (x + 1) <= a
  {
    var q, r := a / d, a % d;
    assert a == d * q + r;
    if q <= x {
      assert d * q <= d * x;
    } else {
      assert d * (x + 1) <= d * q;
    }
  }

  lemma HoldsIsShare(layers: nat, count: nat, i: nat, layer: nat)
    requires count > 0
    ensures Holds(layers, count, i, layer) <==> InShare(layers, count, i, layer)
  {
    QuotientBounds(layers * i, count, layer);
    QuotientBounds(layers * (i + 1), count, layer);
  }

  /** Every layer is in exactly one partition. */
  lemma EveryLayerHasOneHome(layers: nat, count: nat, layer: nat)
    requires count > 0 && layer < layers
    ensures exists i :: 0 <= i < count && Holds(layers, count, i, layer)
    ensures forall i, j :: 0 <= i < j < count ==> !(Holds(layers, count, i, layer) && Holds(layers, count, j, layer))
  {
    Ends(layers, count);
    var i := Home(layers, count, layer, count);
    forall i, j | 0 <= i < j < count ensures !(Holds(layers, count, i, layer) && Holds(layers, count, j, layer)) {
      BoundsAscend(layers, count, i + 1, j);
    }
  }

  lemma {:induction false} Home(layers: nat, count: nat, layer: nat, n: nat) returns (i: nat)
    requires count > 0 && Bound(layers, count, 0) <= layer < Bound(layers, count, n)
    ensures i < n && Holds(layers, count, i, layer)
  {
    if Bound(layers, count, n - 1) <= layer {
      i := n - 1;
    } else {
      i := Home(layers, count, layer, n - 1);
    }
  }

  lemma EarlierLayers(layers: nat, count: nat, i: nat)
    requires count > 0
    ensures forall j: nat, l: nat :: j < i && InShare(layers, count, j, l) ==> l < Bound(layers, count, i)
    ensures forall l: nat :: InShare(layers, count, i, l) <==> Holds(layers, count, i, l)
  {
    forall j: nat, l: nat | j < i && InShare(layers, count, j, l) ensures l < Bound(layers, count, i) {
      HoldsIsShare(layers, count, j, l);
      BoundsAscend(layers, count, j + 1, i);
    }
    forall l: nat ensures InShare(layers, count, i, l) <==> Holds(layers, count, i, l) {
      HoldsIsShare(layers, count, i, l);
    }
  }

  /* ---------------------------------- tensor names ---------------------------------- */

  function Decimal(n: nat): (s: string)
    ensures s != []
  {
    var digit := [('0' as int + n % 10) as char];
    if n < 10 then digit else Decimal(n / 10) + digit
  }

  const LAYERS := "model.language_model.layers."
  const EMBEDDING := "model.language_model.embed_tokens.weight"
  const NORM := "model.language_model.norm.weight"
  const HEAD := "lm_head.weight"

  function LayerPrefix(layer: nat): string {
    LAYERS + Decimal(layer) + "."
  }

  predicate IsMtpName(name: string) {
    || name == "mtp.fc.weight" || name == "mtp.norm.weight"
    || name == "mtp.pre_fc_norm_embedding.weight" || name == "mtp.pre_fc_norm_hidden.weight"
    || "mtp.layers." <= name
  }

  // The number a string of decimal digits denotes.
  ghost function Read(s: string): int {
    if s == [] then 0 else 10 * Read(s[..|s| - 1]) + (s[|s| - 1] as int - '0' as int)
  }

  /** The decimal notation consists of digits, denotes the number, and has no leading zero. */
  lemma {:induction false} DecimalReads(n: nat)
    ensures Read(Decimal(n)) == n && forall c :: c in Decimal(n) ==> '0' <= c <= '9'
    ensures Decimal(n)[0] == '0' ==> n == 0
  {
    var s := Decimal(n);
    if n < 10 {
      assert s[..0] == [];
    } else {
      DecimalReads(n / 10);
      assert s[..|s| - 1] == Decimal(n / 10);
    }
  }

  lemma {:induction false} DecimalHasNoDot(n: nat)
    ensures '.' !in Decimal(n)
  {
    if n >= 10 {
      DecimalHasNoDot(n / 10);
    }
  }

  lemma {:induction false} DecimalIsInjective(a: nat, b: nat)
    requires Decimal(a) == Decimal(b)
    ensures a == b
  {
    var s, t := Decimal(a), Decimal(b);
    assert s[|s| - 1] == ('0' as int + a % 10) as char;
    assert t[|t| - 1] == ('0' as int + b % 10) as char;
    assert a % 10 == b % 10;
    if a >= 10 {
      assert s[..|s| - 1] == Decimal(a / 10);
      assert b >= 10;
      assert t[..|t| - 1] == Decimal(b / 10);
      DecimalIsInjective(a / 10, b / 10);
    }
  }

  lemma DropPrefix(p: string, q: string, name: string)
    requires p + q <= name
    ensures q <= name[|p|..]
  {
    assert name[..|p + q|] == p + q;
    assert name[|p|..][..|q|] == name[..|p + q|][|p|..];
  }

  // What stands before the first dot.
  lemma BeforeDot(s: string, t: string, rest: string)
    requires s + "." <= rest && t + "." <= rest && '.' !in s && '.' !in t
    ensures s == t
  {
    assert rest[..|s|] == s && rest[|s|] == '.';
    assert rest[..|t|] == t && rest[|t|] == '.';
    assert forall k :: 0 <= k < |s| ==> rest[k] == s[k] && s[k] in s;
    assert forall k :: 0 <= k < |t| ==> rest[k] == t[k] && t[k] in t;
    assert |s| == |t|;
  }

  /** A tensor name belongs to one layer at most: "layers.1." is no prefix of "layers.11.". */
  lemma NameHasOneLayer(name: string, a: nat, b: nat)
    requires LayerPrefix(a) <= name && LayerPrefix(b) <= name
    ensures a == b
  {
    hide Decimal;
    var layers := LAYERS;
    assert LayerPrefix(a) == layers + (Decimal(a) + ".") && LayerPrefix(b) == layers + (Decimal(b) + ".");
    DropPrefix(layers, Decimal(a) + ".", name);
    DropPrefix(layers, Decimal(b) + ".", name);
    DecimalHasNoDot(a);
    DecimalHasNoDot(b);
    BeforeDot(Decimal(a), Decimal(b), name[|layers|..]);
    DecimalIsInjective(a, b);
  }

  /* ---------------------------------- byte totals ---------------------------------- */

  // The tensors of a checkpoint, the number of layers, and the number of draft layers.
  datatype Model = Model(names: seq<string>, sizes: map<string, nat>, layers: int, mtpLayers: int)

  // The names list every tensor once.
  ghost predicate Listed(m: Model) {
    && (forall n :: n in m.names <==> n in m.sizes)
    && forall i, j :: 0 <= i < j < |m.names| ==> m.names[i] != m.names[j]
  }

  ghost function SumOf(names: seq<string>, sizes: map<string, nat>, chosen: set<string>): nat {
    if names == [] then 0
    else
      (if names[0] in chosen && names[0] in sizes then sizes[names[0]] else 0) + SumOf(names[1..], sizes, chosen)
  }

  lemma {:induction false} SumOfUnion(names: seq<string>, sizes: map<string, nat>, a: set<string>, b: set<string>)
    requires a !! b
    ensures SumOf(names, sizes, a + b) == SumOf(names, sizes, a) + SumOf(names, sizes, b)
  {
    if names != [] {
      SumOfUnion(names[1..], sizes, a, b);
    }
  }

  lemma {:induction false} SumOfNone(names: seq<string>, sizes: map<string, nat>, a: set<string>)
    requires forall n :: n in names ==> n !in a
    ensures SumOf(names, sizes, a) == 0
  {
    if names != [] {
      assert names[0] in names;
      SumOfNone(names[1..], sizes, a);
    }
  }

  lemma {:induction false} SumOfOne(names: seq<string>, sizes: map<string, nat>, name: string)
    requires forall i, j :: 0 <= i < j < |names| ==> names[i] != names[j]
    ensures SumOf(names, sizes, {name}) == if name in names && name in sizes then sizes[name] else 0
  {
    if names != [] {
      var rest := names[1..];
      if names[0] == name {
        assert forall j :: 0 <= j < |rest| ==> rest[j] == names[j + 1];
        SumOfNone(rest, sizes, {name});
      } else {
        assert name in names <==> name in rest;
        SumOfOne(rest, sizes, name);
      }
    }
  }

  lemma SumOfSnoc(names: seq<string>, sizes: map<string, nat>, chosen: set<string>, i: nat)
    requires i < |names|
    ensures SumOf(names[..i + 1], sizes, chosen) == SumOf(names[..i], sizes, chosen)
              + if names[i] in chosen && names[i] in sizes then sizes[names[i]] else 0
  {
    assert names[..i + 1] == names[..i] + [names[i]];
    SumOfConcat(names[..i], [names[i]], sizes, chosen);
    assert SumOf([], sizes, chosen) == 0;
  }

  lemma {:induction false} SumOfConcat(a: seq<string>, b: seq<string>, sizes: map<string, nat>, chosen: set<string>)
    ensures SumOf(a + b, sizes, chosen) == SumOf(a, sizes, chosen) + SumOf(b, sizes, chosen)
  {
    if a == [] {
      assert a + b == b;
    } else {
      assert (a + b)[1..] == a[1..] + b;
      SumOfConcat(a[1..], b, sizes, chosen);
    }
  }

  ghost function Sum(m: Model, chosen: set<string>): nat {
    SumOf(m.names, m.sizes, chosen)
  }

  ghost function LayerNames(m: Model, layer: nat): set<string> {
    set n | n in m.names && LayerPrefix(layer) <= n
  }

  // The tensors of layers a to b - 1.
  ghost function RangeNames(m: Model, a: nat, b: nat): set<string> {
    set n | n in m.names && exists l :: a <= l < b && n in LayerNames(m, l)
  }

  ghost function MtpNames(m: Model): set<string> {
    set n | n in m.names && m.mtpLayers > 0 && IsMtpName(n)
  }

  method TensorBytes(m: Model, name: string) returns (bytes: nat)
    requires Listed(m)
    ensures bytes == Sum(m, {name})
  {
    bytes := if name in m.sizes then m.sizes[name] else 0;
    SumOfOne(m.names, m.sizes, name);
  }

  method LayerBytes(m: Model, layer: nat) returns (bytes: nat)
    requires Listed(m)
    ensures bytes == Sum(m, LayerNames(m, layer))
  {
    hide SumOf, Decimal;
    bytes := 0;
    var prefix := LayerPrefix(layer);
    EmptySum(m.sizes, LayerNames(m, layer));
    for i := 0 to |m.names|
      invariant bytes == SumOf(m.names[..i], m.sizes, LayerNames(m, layer))
    {
      var name := m.names[i];
      assert name in m.names && name in m.sizes;
      SumOfSnoc(m.names, m.sizes, LayerNames(m, layer), i);
      if prefix <= name {
        bytes := bytes + m.sizes[name];
      }
    }
    assert m.names[..|m.names|] == m.names;
  }

  lemma EmptySum(sizes: map<string, nat>, chosen: set<string>)
    ensures SumOf([], sizes, chosen) == 0
  {
  }

  method MtpBytes(m: Model) returns (bytes: nat)
    requires Listed(m)
    ensures bytes == Sum(m, MtpNames(m))
  {
    hide SumOf, IsMtpName;
    bytes := 0;
    if m.mtpLayers <= 0 {
      SumOfNone(m.names, m.sizes, MtpNames(m));
      return;
    }
    EmptySum(m.sizes, MtpNames(m));
    for i := 0 to |m.names|
      invariant bytes == SumOf(m.names[..i], m.sizes, MtpNames(m))
    {
      var name := m.names[i];
      assert name in m.names && name in m.sizes;
      SumOfSnoc(m.names, m.sizes, MtpNames(m), i);
      if IsMtpName(name) {
        bytes := bytes + m.sizes[name];
      }
    }
    assert m.names[..|m.names|] == m.names;
  }

  lemma RangeGrows(m: Model, a: nat, b: nat)
    requires a <= b
    ensures RangeNames(m, a, b + 1) == RangeNames(m, a, b) + LayerNames(m, b)
    ensures RangeNames(m, a, b) !! LayerNames(m, b)
    ensures Sum(m, RangeNames(m, a, b + 1)) == Sum(m, RangeNames(m, a, b)) + Sum(m, LayerNames(m, b))
  {
    hide SumOf, Decimal, LayerPrefix;
    forall n | n in RangeNames(m, a, b) ensures n !in LayerNames(m, b) {
      var l :| a <= l < b && n in LayerNames(m, l);
      if n in LayerNames(m, b) {
        NameHasOneLayer(n, l, b);
      }
    }
    SumOfUnion(m.names, m.sizes, RangeNames(m, a, b), LayerNames(m, b));
    assert RangeNames(m, a, b + 1) == RangeNames(m, a, b) + LayerNames(m, b);
  }

  method RangeBytes(m: Model, first: nat, last: int) returns (bytes: nat)
    requires Listed(m) && first - 1 <= last
    ensures bytes == Sum(m, RangeNames(m, first, last + 1))
  {
    hide SumOf, LayerNames;
    bytes := 0;
    SumOfNone(m.names, m.sizes, RangeNames(m, first, first));
    var layer := first;
    while layer <= last
      invariant first <= layer <= last + 1
      invariant bytes == Sum(m, RangeNames(m, first, layer))
    {
      var more := LayerBytes(m, layer);
      RangeGrows(m, first, layer);
      bytes := bytes + more;
      layer := layer + 1;
    }
  }

  /* ---------------------------------- the plan ---------------------------------- */

  // What lives on the first device besides its layers, and what on the last one.
  ghost function FirstExtras(): set<string> {
    {EMBEDDING}
  }

  ghost function LastExtras(m: Model): set<string> {
    {NORM} + {HEAD} + MtpNames(m)
  }

  // The tensors device i of `count` holds.
  ghost function Assigned(m: Model, count: nat, i: nat): set<string>
    requires count > 0 && m.layers >= 0
  {
    RangeNames(m, Bound(m.layers, count, i), Bound(m.layers, count, i + 1))
    + (if i == 0 then FirstExtras() else {})
    + (if i == count - 1 then LastExtras(m) else {})
  }

  // The tensors of the text model and its draft head.
  ghost function Planned(m: Model): set<string>
    requires m.layers >= 0
  {
    RangeNames(m, 0, m.layers) + FirstExtras() + LastExtras(m)
  }

  lemma ExtrasAreNoLayers(name: string, layer: nat)
    requires LayerPrefix(layer) <= name
    ensures name != EMBEDDING && name != NORM && name != HEAD && !IsMtpName(name)
  {
    var prefix := LayerPrefix(layer);
    assert prefix[0] == LAYERS[0] && prefix[1] == LAYERS[1] && prefix[21] == LAYERS[21];
    assert LAYERS[0] == 'm' && LAYERS[1] == 'o' && LAYERS[21] == 'l';
    assert name[0] == prefix[0] && name[1] == prefix[1] && name[21] == prefix[21];
    assert EMBEDDING[21] == 'e' && NORM[21] == 'n' && HEAD[0] == 'l';
    MtpSecondLetter(name);
  }

  lemma MtpSecondLetter(name: string)
    ensures IsMtpName(name) ==> |name| > 1 && name[1] == 't'
  {
    if "mtp.layers." <= name {
      assert name[1] == "mtp.layers."[1];
    }
  }

  lemma NamesDiffer()
    ensures EMBEDDING != NORM && EMBEDDING != HEAD && NORM != HEAD
    ensures !IsMtpName(EMBEDDING) && !IsMtpName(NORM) && !IsMtpName(HEAD)
  {
    hide IsMtpName;
    MtpSecondLetter(NORM);
    MtpSecondLetter(HEAD);
    MtpSecondLetter(EMBEDDING);
    assert NORM[1] == 'o' && HEAD[1] == 'm' && EMBEDDING[1] == 'o';
    assert NORM[21] == 'n' && EMBEDDING[21] == 'e';
  }

  lemma ExtrasAreApart(m: Model)
    ensures {NORM} !! {HEAD} && ({NORM} + {HEAD}) !! MtpNames(m) && FirstExtras() !! LastExtras(m)
  {
    hide IsMtpName;
    NamesDiffer();
  }

  lemma RangesAreApart(m: Model, a: nat, b: nat)
    ensures RangeNames(m, a, b) !! FirstExtras() && RangeNames(m, a, b) !! LastExtras(m)
    ensures RangeNames(m, a, b) !! (FirstExtras() + LastExtras(m))
  {
    hide LayerPrefix, IsMtpName;
    forall n | n in RangeNames(m, a, b) ensures n !in FirstExtras() && n !in LastExtras(m) {
      var l :| a <= l < b && n in LayerNames(m, l);
      ExtrasAreNoLayers(n, l);
    }
  }

  lemma ExtrasSum(m: Model)
    ensures Sum(m, LastExtras(m)) == Sum(m, {NORM}) + Sum(m, {HEAD}) + Sum(m, MtpNames(m))
  {
    hide SumOf, MtpNames;
    ExtrasAreApart(m);
    SumOfUnion(m.names, m.sizes, {NORM}, {HEAD});
    SumOfUnion(m.names, m.sizes, {NORM} + {HEAD}, MtpNames(m));
  }

  lemma AssignedSum(m: Model, count: nat, i: nat)
    requires count > 0 && m.layers >= 0
    ensures var range := RangeNames(m, Bound(m.layers, count, i), Bound(m.layers, count, i + 1));
            Sum(m, Assigned(m, count, i)) == Sum(m, range)
              + (if i == 0 then Sum(m, FirstExtras()) else 0)
              + (if i == count - 1 then Sum(m, LastExtras(m)) else 0)
  {
    hide SumOf, LastExtras, FirstExtras, RangeNames, Bound;
    var range := RangeNames(m, Bound(m.layers, count, i), Bound(m.layers, count, i + 1));
    var first := if i == 0 then FirstExtras() else {};
    var last := if i == count - 1 then LastExtras(m) else {};
    RangesAreApart(m, Bound(m.layers, count, i), Bound(m.layers, count, i + 1));
    ExtrasAreApart(m);
    SumOfUnion(m.names, m.sizes, range, first);
    SumOfUnion(m.names, m.sizes, range + first, last);
    SumOfNone(m.names, m.sizes, {});
  }

  // The checks of a plan, in order.
  ghost function PlanStatus(m: Model, devices: seq<Device>): Status {
    if devices == [] then InvalidArgument
    else if exists d :: d in devices && !IsGpu(d) then InvalidDevice
    else if m.layers <= 0 || |devices| > m.layers then InvalidArgument
    else OK
  }

  // A device's run has this layer.
  predicate Runs(p: Partition, layer: nat) {
    p.firstLayer <= layer <= p.lastLayer
  }

  // Where a tensor goes: with its layer; the embedding to the first device; the final norm, the head and the
  // draft tensors, if there are draft layers, to the last one.
  ghost predicate LivesOn(m: Model, name: string, p: Partition, isFirst: bool, isLast: bool) {
    || (exists l: nat :: Runs(p, l) && "model.language_model.layers." + Decimal(l) + "." <= name)
    || (isFirst && name == "model.language_model.embed_tokens.weight")
    || (isLast && (name == "model.language_model.norm.weight" || name == "lm_head.weight"))
    || (isLast && m.mtpLayers > 0
        && (|| name in {"mtp.fc.weight", "mtp.norm.weight"}
            || name in {"mtp.pre_fc_norm_embedding.weight", "mtp.pre_fc_norm_hidden.weight"}
            || "mtp.layers." <= name))
  }

  /** Errors are reported in the source's order. Otherwise device i holds the layers l with
      layers * i < devices * (l + 1) <= layers * (i + 1), and its bytes are those of the tensors that live
      there. */
  method PlanDistributed(m: Model, devices: seq<Device>) returns (status: Status, partitions: seq<Partition>)
    requires Listed(m)
    ensures status == PlanStatus(m, devices)
    ensures status == InvalidDevice <==> exists d :: d in devices && d <= 0
    ensures status == InvalidArgument <==>
              devices == [] || ((forall d :: d in devices ==> d > 0) && (m.layers <= 0 || |devices| > m.layers))
    ensures status in {OK, InvalidArgument, InvalidDevice}
    ensures status != OK ==> partitions == []
    ensures status == OK ==> |partitions| == |devices|
    ensures status == OK ==> forall i :: 0 <= i < |devices| ==> IsPartition(m, devices, i, partitions[i])
    ensures status == OK ==> forall i :: 0 <= i < |devices| ==> partitions[i].device == devices[i]
    ensures status == OK ==> forall i, l: nat :: 0 <= i < |devices| ==>
              (Runs(partitions[i], l) <==> m.layers * i < |devices| * (l + 1) <= m.layers * (i + 1))
    ensures status == OK ==> forall i :: 0 <= i < |devices| ==>
              partitions[i].weightBytes == Sum(m, set name | name in m.names
                && LivesOn(m, name, partitions[i], i == 0, i == |devices| - 1))
  {
    hide Bound, SumOf, RangeNames, Assigned, FirstExtras, LastExtras;
    partitions := [];
    if devices == [] {
      return InvalidArgument, partitions;
    }
    for i := 0 to |devices|
      invariant forall j :: 0 <= j < i ==> IsGpu(devices[j])
    {
      if !IsGpu(devices[i]) {
        assert devices[i] in devices;
        return InvalidDevice, partitions;
      }
    }
    var layers, count := m.layers, |devices|;
    if layers <= 0 || count > layers {
      return InvalidArgument, partitions;
    }
    for i := 0 to count
      invariant |partitions| == i
      invariant forall j :: 0 <= j < i ==> HasRange(m, devices, j, partitions[j])
    {
      var first, last := Bound(layers, count, i), Bound(layers, count, i + 1) - 1;
      BoundsAscend(layers, count, i, i + 1);
      var bytes := RangeBytes(m, first, last);
      partitions := partitions + [Partition(devices[i], first, last, bytes)];
    }
    var embedding := TensorBytes(m, EMBEDDING);
    var norm := TensorBytes(m, NORM);
    var head := TensorBytes(m, HEAD);
    var mtp := MtpBytes(m);
    partitions := partitions[0 := AddBytes(partitions[0], embedding)];
    partitions := partitions[count - 1 := AddBytes(partitions[count - 1], norm)];
    partitions := partitions[count - 1 := AddBytes(partitions[count - 1], head)];
    partitions := partitions[count - 1 := AddBytes(partitions[count - 1], mtp)];
    ExtrasSum(m);
    OnlyEmbedding(m);
    forall i | 0 <= i < count ensures IsPartition(m, devices, i, partitions[i]) {
      AssignedSum(m, count, i);
    }
    forall i | 0 <= i < count
      ensures partitions[i].device == devices[i] && SharesOut(m, count, i, partitions[i])
    {
      PartitionMeans(m, devices, i, partitions[i]);
    }
    status := OK;
  }

  // The run and the bytes of device i of `count`, said without the division.
  ghost predicate SharesOut(m: Model, count: nat, i: nat, p: Partition)
    requires m.layers >= 0
  {
    && (forall l: nat :: Runs(p, l) <==> InShare(m.layers, count, i, l))
    && p.weightBytes == Sum(m, set name | name in m.names && LivesOn(m, name, p, i == 0, i == count - 1))
  }

  lemma PartitionMeans(m: Model, devices: seq<Device>, i: nat, p: Partition)
    requires i < |devices| && m.layers >= 0 && IsPartition(m, devices, i, p)
    ensures p.device == devices[i] && SharesOut(m, |devices|, i, p)
  {
    hide Bound, SumOf, Decimal, InShare;
    var count := |devices|;
    forall l: nat ensures Runs(p, l) <==> InShare(m.layers, count, i, l) {
      HoldsIsShare(m.layers, count, i, l);
    }
    var chosen := set name | name in m.names && LivesOn(m, name, p, i == 0, i == count - 1);
    forall name | name in m.names ensures name in Assigned(m, count, i) <==> name in chosen {
      AssignedLives(m, devices, i, p, name);
    }
    OnlyListedCount(m, Assigned(m, count, i), chosen);
  }

  lemma AssignedLives(m: Model, devices: seq<Device>, i: nat, p: Partition, name: string)
    requires i < |devices| && m.layers >= 0 && IsPartition(m, devices, i, p) && name in m.names
    ensures name in Assigned(m, |devices|, i) <==> LivesOn(m, name, p, i == 0, i == |devices| - 1)
  {
    hide Bound, SumOf, Decimal;
    var range := RangeNames(m, Bound(m.layers, |devices|, i), Bound(m.layers, |devices|, i + 1));
    if name in range {
      var l: nat :| p.firstLayer <= l <= p.lastLayer && name in LayerNames(m, l);
      assert Runs(p, l);
    }
    if l: nat :| Runs(p, l) && "model.language_model.layers." + Decimal(l) + "." <= name {
      assert name in LayerNames(m, l);
    }
  }

  // Names that the checkpoint does not list add nothing.
  lemma OnlyListedCount(m: Model, a: set<string>, b: set<string>)
    requires forall name :: name in m.names ==> (name in a <==> name in b)
    ensures Sum(m, a) == Sum(m, b)
  {
    SumOfSame(m.names, m.sizes, a, b);
  }

  lemma {:induction false} SumOfSame(names: seq<string>, sizes: map<string, nat>, a: set<string>, b: set<string>)
    requires forall name :: name in names ==> (name in a <==> name in b)
    ensures SumOf(names, sizes, a) == SumOf(names, sizes, b)
  {
    if names != [] {
      assert names[0] in names;
      SumOfSame(names[1..], sizes, a, b);
    }
  }

  lemma OnlyEmbedding(m: Model)
    ensures Sum(m, FirstExtras()) == Sum(m, {EMBEDDING})
  {
  }

  function AddBytes(p: Partition, bytes: nat): Partition {
    p.(weightBytes := p.weightBytes + bytes)
  }

  ghost predicate HasShape(m: Model, devices: seq<Device>, i: nat, p: Partition)
    requires i < |devices| && m.layers >= 0
  {
    && p.device == devices[i]
    && p.firstLayer == Bound(m.layers, |devices|, i) && p.lastLayer == Bound(m.layers, |devices|, i + 1) - 1
  }

  ghost predicate HasRange(m: Model, devices: seq<Device>, i: nat, p: Partition)
    requires i < |devices| && m.layers >= 0
  {
    HasShape(m, devices, i, p)
    && p.weightBytes == Sum(m, RangeNames(m, Bound(m.layers, |devices|, i), Bound(m.layers, |devices|, i + 1)))
  }

  ghost predicate IsPartition(m: Model, devices: seq<Device>, i: nat, p: Partition)
    requires i < |devices| && m.layers >= 0
  {
    HasShape(m, devices, i, p) && p.weightBytes == Sum(m, Assigned(m, |devices|, i))
  }

  /* ---------------------------------- conservation ---------------------------------- */

  // The tensors of the first n devices.
  ghost function AssignedTo(m: Model, count: nat, n: nat): set<string>
    requires count > 0 && m.layers >= 0
  {
    if n == 0 then {} else AssignedTo(m, count, n - 1) + Assigned(m, count, n - 1)
  }

  lemma RangesJoin(m: Model, a: nat, b: nat, c: nat)
    requires a <= b <= c
    ensures RangeNames(m, a, c) == RangeNames(m, a, b) + RangeNames(m, b, c)
    ensures RangeNames(m, a, b) !! RangeNames(m, b, c)
  {
    hide LayerPrefix;
    forall n | n in RangeNames(m, a, b) ensures n !in RangeNames(m, b, c) {
      var l :| a <= l < b && n in LayerNames(m, l);
      forall k | b <= k < c ensures n !in LayerNames(m, k) {
        if n in LayerNames(m, k) {
          NameHasOneLayer(n, l, k);
        }
      }
    }
  }

  // The first n devices hold the layers up to the boundary, the embedding, and the extras once n == count.
  lemma {:induction false} AssignedSoFar(m: Model, count: nat, n: nat)
    requires count > 0 && m.layers >= 0 && n <= count
    ensures AssignedTo(m, count, n) ==
            RangeNames(m, 0, Bound(m.layers, count, n))
            + (if n > 0 then FirstExtras() else {}) + (if n == count then LastExtras(m) else {})
  {
    hide RangeNames, FirstExtras, LastExtras, Bound;
    Ends(m.layers, count);
    if n == 0 {
      NoRange(m);
    } else {
      AssignedSoFar(m, count, n - 1);
      BoundsAscend(m.layers, count, n - 1, n);
      RangesJoin(m, 0, Bound(m.layers, count, n - 1), Bound(m.layers, count, n));
    }
  }

  lemma NoRange(m: Model)
    ensures RangeNames(m, 0, 0) == {}
  {
  }

  lemma AssignedIsApart(m: Model, count: nat, n: nat)
    requires count > 0 && m.layers >= 0 && n < count
    ensures AssignedTo(m, count, n) !! Assigned(m, count, n)
  {
    hide RangeNames, FirstExtras, LastExtras, Bound;
    var before, after := Bound(m.layers, count, n), Bound(m.layers, count, n + 1);
    AssignedSoFar(m, count, n);
    BoundsAscend(m.layers, count, n, n + 1);
    RangesJoin(m, 0, before, after);
    RangesAreApart(m, 0, before);
    RangesAreApart(m, before, after);
    ExtrasAreApart(m);
  }

  /** No tensor is on two devices, and together the devices hold exactly the planned tensors. */
  lemma EveryTensorOnce(m: Model, count: nat)
    requires count > 0 && m.layers >= 0
    ensures AssignedTo(m, count, count) == Planned(m)
    ensures forall i, j :: 0 <= i < j < count ==> Assigned(m, count, i) !! Assigned(m, count, j)
  {
    hide RangeNames, FirstExtras, LastExtras, Bound, Assigned;
    Ends(m.layers, count);
    AssignedSoFar(m, count, count);
    forall i, j | 0 <= i < j < count ensures Assigned(m, count, i) !! Assigned(m, count, j) {
      AssignedIsApart(m, count, j);
      EarlierIsIncluded(m, count, i, j);
    }
  }

  lemma {:induction false} EarlierIsIncluded(m: Model, count: nat, i: nat, n: nat)
    requires count > 0 && m.layers >= 0 && i < n
    ensures Assigned(m, count, i) <= AssignedTo(m, count, n)
  {
    hide Assigned;
    if i < n - 1 {
      EarlierIsIncluded(m, count, i, n - 1);
    }
  }

  ghost function TotalBytes(partitions: seq<Partition>): nat {
    if partitions == [] then 0
    else TotalBytes(partitions[..|partitions| - 1]) + partitions[|partitions| - 1].weightBytes
  }

  /** The planned bytes count every planned tensor once and nothing else. */
  lemma {:induction false} BytesAreConserved(m: Model, devices: seq<Device>, partitions: seq<Partition>)
    requires devices != [] && m.layers >= 0 && |partitions| == |devices|
    requires forall i :: 0 <= i < |devices| ==> IsPartition(m, devices, i, partitions[i])
    ensures TotalBytes(partitions) == Sum(m, Planned(m))
  {
    hide SumOf, Assigned, Planned, RangeNames, IsPartition;
    BytesSoFar(m, devices, partitions, |devices|);
    EveryTensorOnce(m, |devices|);
    assert partitions[..|devices|] == partitions;
  }

  lemma {:induction false} BytesSoFar(m: Model, devices: seq<Device>, partitions: seq<Partition>, n: nat)
    requires devices != [] && m.layers >= 0 && |partitions| == |devices| && n <= |devices|
    requires forall i :: 0 <= i < |devices| ==> IsPartition(m, devices, i, partitions[i])
    ensures TotalBytes(partitions[..n]) == Sum(m, AssignedTo(m, |devices|, n))
  {
    hide SumOf, Assigned, RangeNames;
    if n == 0 {
      SumOfNone(m.names, m.sizes, {});
    } else {
      BytesSoFar(m, devices, partitions, n - 1);
      AssignedIsApart(m, |devices|, n - 1);
      SumOfUnion(m.names, m.sizes, AssignedTo(m, |devices|, n - 1), Assigned(m, |devices|, n - 1));
      assert partitions[..n][..n - 1] == partitions[..n - 1];
      assert IsPartition(m, devices, n - 1, partitions[n - 1]);
    }
  }

  /* ---------------------------------- loading ---------------------------------- */

  // Every single load of the plan succeeds.
  ghost predicate AllLoad(m: Model, devices: seq<Device>, layerLoads: (int, Device) -> bool,
                          tensorLoads: string -> bool)
    requires devices != [] && m.layers >= 0
  {
    && (forall i, l: nat :: 0 <= i < |devices| && l < m.layers && InShare(m.layers, |devices|, i, l) ==>
          layerLoads(l, devices[i]))
    && tensorLoads(EMBEDDING) && tensorLoads(NORM) && tensorLoads(HEAD)
  }

  // The first check that fails decides.
  ghost function LoadStatus(m: Model, devices: seq<Device>, layerLoads: (int, Device) -> bool,
                            tensorLoads: string -> bool): Status {
    if devices == [] then InvalidArgument
    else if m.layers < 0 then LengthError
    else if PlanStatus(m, devices) != OK then PlanStatus(m, devices)
    else if AllLoad(m, devices, layerLoads, tensorLoads) then OK
    else LoadFailed
  }

  /** Loading succeeds exactly when the plan is accepted and every single load it names succeeds, and passes
      the plan's error on. It follows the plan: every layer is loaded once, in order, onto the device whose
      partition holds it, and the recorded total is the planned tensors' bytes. The two predicates say which
      single loads succeed. */
  method LoadDistributed(m: Model, devices: seq<Device>, layerLoads: (int, Device) -> bool, tensorLoads: string -> bool)
    returns (status: Status, layerDevices: seq<Device>, totalBytes: nat, loaded: seq<int>)
    requires Listed(m)
    ensures status == LoadStatus(m, devices, layerLoads, tensorLoads)
    ensures status == LengthError <==> devices != [] && m.layers < 0
    ensures status == InvalidDevice <==> m.layers >= 0 && exists d :: d in devices && d <= 0
    ensures status == InvalidArgument <==>
              || devices == []
              || (m.layers >= 0 && (forall d :: d in devices ==> d > 0) && (m.layers == 0 || |devices| > m.layers))
    ensures status == OK ==>
              && |layerDevices| == m.layers == |loaded| && |devices| <= m.layers
              && (forall l :: 0 <= l < m.layers ==> loaded[l] == l && layerLoads(l, layerDevices[l]))
              && (forall i, l :: 0 <= i < |devices| && 0 <= l < m.layers && InShare(m.layers, |devices|, i, l) ==>
                    layerDevices[l] == devices[i])
              && totalBytes == Sum(m, Planned(m))
  {
    hide SumOf, Assigned, Planned, RangeNames, Bound, InShare, LivesOn;
    layerDevices, totalBytes, loaded := [], 0, [];
    if devices == [] {
      return InvalidArgument, layerDevices, totalBytes, loaded;
    }
    if m.layers < 0 {
      return LengthError, layerDevices, totalBytes, loaded;
    }
    layerDevices := seq(m.layers, _ => 0);
    var partitions;
    status, partitions := PlanDistributed(m, devices);
    if status != OK {
      return;
    }
    ghost var count := |devices|;
    Ends(m.layers, count);
    for i := 0 to |partitions|
      invariant |layerDevices| == m.layers && |loaded| == Bound(m.layers, count, i) <= m.layers
      invariant forall l :: 0 <= l < |loaded| ==> loaded[l] == l && layerLoads(l, layerDevices[l])
      invariant forall j, l :: 0 <= j < i && 0 <= l < m.layers && InShare(m.layers, count, j, l) ==>
                  layerDevices[l] == devices[j]
      invariant totalBytes == TotalBytes(partitions[..i])
    {
      var p := partitions[i];
      assert IsPartition(m, devices, i, p);
      BoundsAscend(m.layers, count, i, i + 1);
      BoundsAscend(m.layers, count, i + 1, count);
      EarlierLayers(m.layers, count, i);
      var layer := p.firstLayer;
      while layer <= p.lastLayer
        invariant p.firstLayer <= layer <= p.lastLayer + 1 && |layerDevices| == m.layers && |loaded| == layer
        invariant forall l :: 0 <= l < layer ==> loaded[l] == l && layerLoads(l, layerDevices[l])
        invariant forall l :: p.firstLayer <= l < layer ==> layerDevices[l] == p.device
        invariant forall j, l :: 0 <= j < i && 0 <= l < m.layers && InShare(m.layers, count, j, l) ==>
                    layerDevices[l] == devices[j]
      {
        if !layerLoads(layer, p.device) {
          status := LoadFailed;
          return;
        }
        layerDevices := layerDevices[layer := p.device];
        loaded := loaded + [layer];
        layer := layer + 1;
      }
      assert partitions[..i + 1][..i] == partitions[..i];
      totalBytes := totalBytes + p.weightBytes;
    }
    assert partitions[..|partitions|] == partitions;
    BytesAreConserved(m, devices, partitions);
    if !tensorLoads(EMBEDDING) || !tensorLoads(NORM) || !tensorLoads(HEAD) {
      status := LoadFailed;
    }
  }
}
