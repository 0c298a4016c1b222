/** The table of logical and physical cameras that ConfigureCameras builds in two passes:
    the first parses one entry per configured camera, the second appends, for each logical
    camera, a copy of every physical camera it names. */
module CameraTable {

  import opened Wrappers

  const META_STRING_SIZE: nat := 32
  const MAX_BASIC_CAMERA_NUM: nat := 24

  /** A camera of the configuration file. `others` stands for the fields that the second
      pass copies without looking at them. */
  datatype Config = Config(cameraType: Option<string>, cameraName: Option<string>, bufferType: string,
                           others: seq<int>, physicalNames: seq<string>)

  datatype Sensor = Sensor(cameraType: string, cameraName: string, others: seq<int>)

  const ZEROED := Sensor("", "", [])

  /** strncpy into a field of META_STRING_SIZE bytes whose last byte is then cleared. */
  function Truncate(s: string): (r: string)
    ensures |r| < META_STRING_SIZE && r <= s
    ensures |s| < META_STRING_SIZE ==> r == s
  {
    if |s| < META_STRING_SIZE then s else s[..META_STRING_SIZE - 1]
  }

  /** ParseCharacteristics, which gives up on an unknown buffer type. */
  function ParseCharacteristics(c: Config): Option<Sensor> {
    if c.bufferType != "mmap" && c.bufferType != "dma" then None
    else Some(Sensor(Truncate(if c.cameraType.Some? then c.cameraType.value else "physical"),
                     Truncate(if c.cameraName.Some? then c.cameraName.value else "logical"), c.others))
  }

  /** The slot of a camera: the first pass ignores the failure and leaves it zeroed. */
  function Parsed(c: Config): Sensor {
    var sensor := ParseCharacteristics(c);
    if sensor.Some? then sensor.value else ZEROED
  }

  /** A field of the file as it is stored: at most 31 characters of it, or the default. */
  ghost predicate Stores(given: Option<string>, missing: string, field: string) {
    && (given == None ==> field == missing)
    && (given.Some? && |given.value| < 32 ==> field == given.value)
    && (given.Some? && 32 <= |given.value| ==> field == given.value[..31])
  }

  /** What the slot of a camera holds of its entry in the file. */
  ghost predicate SlotSays(c: Config, slot: Sensor) {
    if c.bufferType == "mmap" || c.bufferType == "dma" then
      && Stores(c.cameraType, "physical", slot.cameraType)
      && Stores(c.cameraName, "logical", slot.cameraName)
      && slot.others == c.others
    else
      slot == Sensor("", "", [])
  }

  /** The name under which a camera of the file can be found. */
  ghost predicate KnownAs(c: Config, name: string) {
    if c.bufferType == "mmap" || c.bufferType == "dma" then Stores(c.cameraName, "logical", name) else name == ""
  }

  function BaseTable(configs: seq<Config>): (r: seq<Sensor>)
    requires |configs| <= MAX_BASIC_CAMERA_NUM
    ensures |r| == MAX_BASIC_CAMERA_NUM
    ensures forall i :: 0 <= i < |configs| ==> SlotSays(configs[i], r[i])
    ensures forall i :: |configs| <= i < |r| ==> r[i] == Sensor("", "", [])
  {
    seq(MAX_BASIC_CAMERA_NUM, i requires 0 <= i < MAX_BASIC_CAMERA_NUM =>
      if i < |configs| then Parsed(configs[i]) else ZEROED)
  }

  /** Entry i is the first one with this name among the first n. */
  predicate FirstNamed(table: seq<Sensor>, n: nat, name: string, i: nat) {
    && i < n <= |table| && table[i].cameraName == name
    && forall j :: 0 <= j < i ==> table[j].cameraName != name
  }

  predicate Unnamed(table: seq<Sensor>, n: nat, name: string) {
    n <= |table| && forall j :: 0 <= j < n ==> table[j].cameraName != name
  }

  /** What one physical name adds to the table: nothing if no camera has it. */
  function Copies(table: seq<Sensor>, n: nat, cameraType: string, name: string): (r: seq<Sensor>)
    requires n <= |table|
    ensures |r| <= 1
    ensures r == [] <==> Unnamed(table, n, name)
  {
    if n == 0 then []
    else
      var earlier := Copies(table, n - 1, cameraType, name);
      if earlier != [] then earlier
      else if table[n - 1].cameraName == name then [table[n - 1].(cameraType := cameraType)]
      else []
  }

  /** The copy is the first camera of that name, under its owner's type. */
  lemma {:induction false} CopiesFirst(table: seq<Sensor>, n: nat, cameraType: string, name: string, i: nat)
    requires FirstNamed(table, n, name, i)
    ensures Copies(table, n, cameraType, name) == [table[i].(cameraType := cameraType)]
  {
    if i < n - 1 {
      CopiesFirst(table, n - 1, cameraType, name, i);
    } else {
      assert Unnamed(table, n - 1, name);
    }
  }

  function CopiesOfAll(table: seq<Sensor>, n: nat, cameraType: string, names: seq<string>): (r: seq<Sensor>)
    requires n <= |table|
  {
    if names == [] then []
    else CopiesOfAll(table, n, cameraType, names[..|names| - 1]) + Copies(table, n, cameraType, names[|names| - 1])
  }

  /** What camera c adds: only a camera with two or more physical names is logical. */
  function Physicals(base: seq<Sensor>, configs: seq<Config>, c: nat): (r: seq<Sensor>)
    requires c < |configs| <= |base|
  {
    if |configs[c].physicalNames| < 2 then []
    else CopiesOfAll(base, |configs|, base[c].cameraType, configs[c].physicalNames)
  }

  /** What the cameras before c add. */
  function Appended(base: seq<Sensor>, configs: seq<Config>, c: nat): (r: seq<Sensor>)
    requires c <= |configs| <= |base|
  {
    if c == 0 then [] else Appended(base, configs, c - 1) + Physicals(base, configs, c - 1)
  }

  /** n consecutive indices. */
  function Indices(from: nat, n: nat): (r: seq<nat>)
    ensures |r| == n && forall i :: 0 <= i < n ==> r[i] == from + i
  {
    if n == 0 then [] else Indices(from, n - 1) + [from + n - 1]
  }

  lemma {:induction false} IndicesAppend(from: nat, m: nat, n: nat)
    ensures Indices(from, m + n) == Indices(from, m) + Indices(from + m, n)
  {
  }

  lemma {:induction false} Regroup(a: seq<Sensor>, b: seq<Sensor>, c: seq<Sensor>)
    ensures a + b + c == a + (b + c) && b + [] == b
  {
  }

  /** The indices of the entries that camera c owns. */
  function Owned(base: seq<Sensor>, configs: seq<Config>, c: nat): (r: seq<nat>)
    requires c < |configs| <= |base|
    ensures |r| == |Physicals(base, configs, c)|
  {
    Indices(|base| + |Appended(base, configs, c)|, |Physicals(base, configs, c)|)
  }

  class CameraDefinition {
    var cameraMetadata: seq<Sensor>
    var cameraIdMap: map<nat, seq<nat>>

    /** CameraConfigurationParser::Init reserves the basic slots. */
    constructor ()
      ensures |cameraMetadata| == MAX_BASIC_CAMERA_NUM && cameraIdMap == map[]
      ensures forall i :: 0 <= i < MAX_BASIC_CAMERA_NUM ==> cameraMetadata[i] == ZEROED
    {
      cameraMetadata, cameraIdMap := seq(MAX_BASIC_CAMERA_NUM, _ => ZEROED), map[];
    }

    /** The first pass. */
    method ParseAll(configs: seq<Config>)
      requires |configs| <= |cameraMetadata| == MAX_BASIC_CAMERA_NUM && cameraIdMap == map[]
      requires forall i :: 0 <= i < MAX_BASIC_CAMERA_NUM ==> cameraMetadata[i] == ZEROED
      modifies this
      ensures cameraMetadata == BaseTable(configs)
      ensures forall c: nat :: c in cameraIdMap <==> c < |configs|
      ensures forall c: nat :: c < |configs| ==> cameraIdMap[c] == []
      ensures |cameraIdMap| == |configs|
    {
      for id := 0 to |configs|
        invariant |cameraMetadata| == MAX_BASIC_CAMERA_NUM && |cameraIdMap| == id
        invariant forall i :: 0 <= i < id ==> cameraMetadata[i] == Parsed(configs[i])
        invariant forall i :: id <= i < MAX_BASIC_CAMERA_NUM ==> cameraMetadata[i] == ZEROED
        invariant forall c: nat :: c in cameraIdMap <==> c < id
        invariant forall c: nat :: c < id ==> cameraIdMap[c] == []
      {
        var sensor := ParseCharacteristics(configs[id]);
        if sensor.Some? {
          cameraMetadata := cameraMetadata[id := sensor.value];
        }
        cameraIdMap := cameraIdMap[id := []];
      }
    }

    /** The search for one physical name among the configured cameras. */
    method AddPhysical(cameraIndex: nat, name: string, ghost base: seq<Sensor>, ghost n: nat)
      requires MAX_BASIC_CAMERA_NUM == |base| && base <= cameraMetadata && n == |cameraIdMap| <= |base|
      requires cameraIndex in cameraIdMap && cameraIndex < n
      requires |base[cameraIndex].cameraType| < META_STRING_SIZE
      modifies this
      ensures cameraIdMap.Keys == old(cameraIdMap.Keys) && |cameraIdMap| == n
      ensures forall c :: c in cameraIdMap && c != cameraIndex ==> cameraIdMap[c] == old(cameraIdMap[c])
      ensures var copies := Copies(base, n, base[cameraIndex].cameraType, name);
        && cameraMetadata == old(cameraMetadata) + copies
        && cameraIdMap[cameraIndex] == old(cameraIdMap[cameraIndex]) + Indices(|old(cameraMetadata)|, |copies|)
    {
      var i := 0;
      while i < |cameraIdMap|
        invariant 0 <= i <= n && Unnamed(base, i, name)
        invariant cameraMetadata == old(cameraMetadata) && cameraIdMap == old(cameraIdMap)
      {
        var temp := cameraMetadata[i];
        if temp.cameraName == name {
          CopiesFirst(base, n, base[cameraIndex].cameraType, name, i);
          temp := temp.(cameraType := Truncate(cameraMetadata[cameraIndex].cameraType));
          cameraMetadata := cameraMetadata + [temp];
          var phyCameraId := |cameraMetadata| - 1;
          cameraIdMap := cameraIdMap[cameraIndex := cameraIdMap[cameraIndex] + [phyCameraId]];
          return;
        }
        i := i + 1;
      }
    }

    /** The loop over the physical names of one camera. */
    method AddPhysicals(cameraIndex: nat, names: seq<string>, ghost base: seq<Sensor>, ghost n: nat)
      requires MAX_BASIC_CAMERA_NUM == |base| && base <= cameraMetadata && n == |cameraIdMap| <= |base|
      requires cameraIndex in cameraIdMap && cameraIndex < n && cameraIdMap[cameraIndex] == []
      requires |base[cameraIndex].cameraType| < META_STRING_SIZE
      modifies this
      ensures cameraIdMap.Keys == old(cameraIdMap.Keys) && |cameraIdMap| == n
      ensures forall c :: c in cameraIdMap && c != cameraIndex ==> cameraIdMap[c] == old(cameraIdMap[c])
      ensures var copies := CopiesOfAll(base, n, base[cameraIndex].cameraType, names);
        && cameraMetadata == old(cameraMetadata) + copies
        && cameraIdMap[cameraIndex] == Indices(|old(cameraMetadata)|, |copies|)
    {
      ghost var cameraType := base[cameraIndex].cameraType;
      for k := 0 to |names|
        invariant cameraIdMap.Keys == old(cameraIdMap.Keys) && |cameraIdMap| == n
        invariant forall c :: c in cameraIdMap && c != cameraIndex ==> cameraIdMap[c] == old(cameraIdMap[c])
        invariant cameraMetadata == old(cameraMetadata) + CopiesOfAll(base, n, cameraType, names[..k])
        invariant cameraIdMap[cameraIndex] ==
                  Indices(|old(cameraMetadata)|, |CopiesOfAll(base, n, cameraType, names[..k])|)
      {
        ghost var size := |CopiesOfAll(base, n, cameraType, names[..k])|;
        assert names[..k + 1][..k] == names[..k];
        AddPhysical(cameraIndex, names[k], base, n);
        IndicesAppend(|old(cameraMetadata)|, size, |Copies(base, n, cameraType, names[k])|);
      }
      assert names[..|names|] == names;
    }

    /** The second pass has dealt with the cameras before c. */
    ghost predicate Partly(configs: seq<Config>, base: seq<Sensor>, c: nat)
      reads this
    {
      && c <= |configs| <= |base| && |cameraIdMap| == |configs|
      && cameraMetadata == base + Appended(base, configs, c)
      && (forall k: nat :: k in cameraIdMap <==> k < |configs|)
      && (forall k: nat :: k < c ==> cameraIdMap[k] == Owned(base, configs, k))
      && (forall k: nat :: c <= k < |configs| ==> cameraIdMap[k] == [])
    }

    ghost predicate Built(configs: seq<Config>)
      reads this
    {
      |configs| <= MAX_BASIC_CAMERA_NUM && Partly(configs, BaseTable(configs), |configs|)
    }

    /** One camera of the second pass. */
    method AddCamera(configs: seq<Config>, cameraIndex: nat, ghost base: seq<Sensor>)
      requires cameraIndex < |configs| && Partly(configs, base, cameraIndex) && |base| == MAX_BASIC_CAMERA_NUM
      requires forall i :: 0 <= i < |base| ==> |base[i].cameraType| < META_STRING_SIZE
      modifies this
      ensures Partly(configs, base, cameraIndex + 1)
    {
      if |configs[cameraIndex].physicalNames| >= 2 {
        AddPhysicals(cameraIndex, configs[cameraIndex].physicalNames, base, |configs|);
      }
      ghost var before, copies := Appended(base, configs, cameraIndex), Physicals(base, configs, cameraIndex);
      assert cameraMetadata == base + (before + copies) by {
        Regroup(base, before, copies);
      }
      assert cameraIdMap[cameraIndex] == Owned(base, configs, cameraIndex);
    }

    /** The second pass. */
    method AddAllPhysicals(configs: seq<Config>, ghost base: seq<Sensor>)
      requires |configs| <= |base| == MAX_BASIC_CAMERA_NUM && Partly(configs, base, 0)
      requires forall i :: 0 <= i < |base| ==> |base[i].cameraType| < META_STRING_SIZE
      modifies this
      ensures Partly(configs, base, |configs|)
    {
      for cameraIndex := 0 to |configs|
        invariant Partly(configs, base, cameraIndex)
      {
        AddCamera(configs, cameraIndex, base);
      }
    }

    /** The part of ConfigureCameras that builds the table, for a file of at most 24 cameras. */
    method ConfigureCameras(configs: seq<Config>)
      requires |configs| <= |cameraMetadata| == MAX_BASIC_CAMERA_NUM && cameraIdMap == map[]
      requires forall i :: 0 <= i < MAX_BASIC_CAMERA_NUM ==> cameraMetadata[i] == ZEROED
      modifies this
      ensures Built(configs) && 24 <= |cameraMetadata|
      ensures forall i :: 0 <= i < |configs| ==> SlotSays(configs[i], cameraMetadata[i])
      ensures forall i :: |configs| <= i < 24 ==> cameraMetadata[i] == Sensor("", "", [])
      ensures forall c: nat :: c < |configs| && |configs[c].physicalNames| < 2 ==> cameraIdMap[c] == []
    {
      ParseAll(configs);
      AddAllPhysicals(configs, BaseTable(configs));
    }
  }

  /** A step of Appended: the earlier entries stay, and those of camera d - 1 follow. */
  lemma {:induction false} AppendedStep(base: seq<Sensor>, configs: seq<Config>, d: nat, n: nat, at: nat)
    requires 0 < d <= |configs| <= |base| && n == |Appended(base, configs, d - 1)|
    ensures |Appended(base, configs, d)| == n + |Physicals(base, configs, d - 1)|
    ensures at < n ==> Appended(base, configs, d)[at] == Appended(base, configs, d - 1)[at]
    ensures n <= at < |Appended(base, configs, d)| ==>
      Appended(base, configs, d)[at] == Physicals(base, configs, d - 1)[at - n]
  {
  }

  lemma {:induction false} AppendedLonger(base: seq<Sensor>, configs: seq<Config>, c: nat, d: nat, n: nat)
    requires c <= d <= |configs| <= |base| && n <= |Appended(base, configs, c)|
    ensures n <= |Appended(base, configs, d)|
    decreases d - c
  {
    if c < d {
      AppendedStep(base, configs, c + 1, |Appended(base, configs, c)|, 0);
      AppendedLonger(base, configs, c + 1, d, n);
    }
  }

  /** What is appended stays where it is. */
  lemma {:induction false} AppendedStays(base: seq<Sensor>, configs: seq<Config>, c: nat, d: nat, at: nat, x: Sensor)
    requires c <= d <= |configs| <= |base| && at < |Appended(base, configs, c)|
    requires Appended(base, configs, c)[at] == x
    ensures at < |Appended(base, configs, d)| && Appended(base, configs, d)[at] == x
    decreases d - c
  {
    if c < d {
      var next := c + 1;
      AppendedStep(base, configs, next, |Appended(base, configs, c)|, at);
      AppendedStays(base, configs, next, d, at, x);
    }
  }

  lemma {:induction false} AppendedGrows(base: seq<Sensor>, configs: seq<Config>, c: nat, d: nat)
    requires c < d <= |configs| <= |base|
    ensures |Appended(base, configs, c)| + |Physicals(base, configs, c)| <= |Appended(base, configs, d)|
  {
    var next := c + 1;
    AppendedStep(base, configs, next, |Appended(base, configs, c)|, 0);
    AppendedLonger(base, configs, next, d, |Appended(base, configs, next)|);
  }

  /** The entries of an earlier owner come first. */
  lemma {:induction false} OwnersInOrder(base: seq<Sensor>, configs: seq<Config>, c: nat, d: nat, k: nat, l: nat)
    requires c < d < |configs| <= |base| && k in Owned(base, configs, c) && l in Owned(base, configs, d)
    ensures k < l
  {
    AppendedGrows(base, configs, c, d);
  }

  /** No entry has two owners. */
  lemma {:induction false} OwnersDisjoint(base: seq<Sensor>, configs: seq<Config>, c: nat, d: nat, k: nat)
    requires c < |configs| <= |base| && d < |configs| && c != d
    requires k in Owned(base, configs, c)
    ensures k !in Owned(base, configs, d)
  {
    AppendedGrows(base, configs, if c < d then c else d, if c < d then d else c);
  }

  lemma {:induction false} OwnerOf(base: seq<Sensor>, configs: seq<Config>, d: nat, k: nat) returns (c: nat)
    requires d <= |configs| <= |base|
    requires |base| <= k < |base| + |Appended(base, configs, d)|
    ensures c < d && k in Owned(base, configs, c)
  {
    var before := |base| + |Appended(base, configs, d - 1)|;
    if before <= k {
      c := d - 1;
      assert Owned(base, configs, c)[k - before] == k;
    } else {
      c := OwnerOf(base, configs, d - 1, k);
    }
  }

  /** The owned indices are exactly those behind the basic slots. */
  lemma {:induction false} OwnedIff(base: seq<Sensor>, configs: seq<Config>, k: nat)
    requires |configs| <= |base|
    ensures (exists c: nat :: c < |configs| && k in Owned(base, configs, c)) <==>
            |base| <= k < |base| + |Appended(base, configs, |configs|)|
  {
    if |base| <= k < |base| + |Appended(base, configs, |configs|)| {
      var c := OwnerOf(base, configs, |configs|, k);
    } else {
      forall c: nat | c < |configs|
        ensures k !in Owned(base, configs, c)
      {
        AppendedGrows(base, configs, c, |configs|);
      }
    }
  }

  lemma {:induction false} AppendedAt(base: seq<Sensor>, configs: seq<Config>, c: nat, d: nat, j: nat, at: nat)
    requires c < d <= |configs| <= |base| && j < |Physicals(base, configs, c)|
    requires at == |Appended(base, configs, c)| + j
    ensures at < |Appended(base, configs, d)| && Appended(base, configs, d)[at] == Physicals(base, configs, c)[j]
  {
    var next := c + 1;
    AppendedStep(base, configs, next, |Appended(base, configs, c)|, at);
    AppendedStays(base, configs, next, d, at, Physicals(base, configs, c)[j]);
  }

  /** Entry `copy` is the first camera with one of these names, under the given type. */
  ghost predicate CopyOfFirst(table: seq<Sensor>, n: nat, cameraType: string, names: seq<string>, copy: Sensor) {
    exists m: nat, i: nat ::
      m < |names| && FirstNamed(table, n, names[m], i) && copy == table[i].(cameraType := cameraType)
  }

  lemma {:induction false} FirstOf(table: seq<Sensor>, n: nat, name: string) returns (i: nat)
    requires n <= |table| && !Unnamed(table, n, name)
    ensures FirstNamed(table, n, name, i)
  {
    if Unnamed(table, n - 1, name) {
      i := n - 1;
    } else {
      i := FirstOf(table, n - 1, name);
    }
  }

  lemma {:induction false} CopiedFrom(table: seq<Sensor>, n: nat, cameraType: string, names: seq<string>, j: nat,
                                      copy: Sensor)
    requires n <= |table| && j < |CopiesOfAll(table, n, cameraType, names)|
    requires copy == CopiesOfAll(table, n, cameraType, names)[j]
    ensures CopyOfFirst(table, n, cameraType, names, copy)
  {
    var m := |names| - 1;
    var earlier := CopiesOfAll(table, n, cameraType, names[..m]);
    if j < |earlier| {
      CopiedFrom(table, n, cameraType, names[..m], j, copy);
      var k: nat, i: nat :|
        k < m && FirstNamed(table, n, names[..m][k], i) && copy == table[i].(cameraType := cameraType);
      assert names[k] == names[..m][k];
    } else {
      var i := FirstOf(table, n, names[m]);
      CopiesFirst(table, n, cameraType, names[m], i);
    }
  }

  lemma {:induction false} OwnedEntry(base: seq<Sensor>, configs: seq<Config>, table: seq<Sensor>, c: nat, k: nat)
    returns (j: nat)
    requires c < |configs| <= |base| && k in Owned(base, configs, c)
    requires table == base + Appended(base, configs, |configs|)
    ensures j < |Physicals(base, configs, c)| && k < |table| && table[k] == Physicals(base, configs, c)[j]
  {
    var at := k - |base|;
    j := at - |Appended(base, configs, c)|;
    AppendedAt(base, configs, c, |configs|, j, at);
  }

  /** Every entry that camera c owns is a copy of a configured camera that c names, the
      first of that name, with only its type replaced by the type of c. */
  lemma {:induction false} OwnedIsCopy(base: seq<Sensor>, configs: seq<Config>, table: seq<Sensor>, c: nat, k: nat)
    requires c < |configs| <= |base| && k in Owned(base, configs, c)
    requires table == base + Appended(base, configs, |configs|)
    ensures k < |table|
    ensures CopyOfFirst(base, |configs|, base[c].cameraType, configs[c].physicalNames, table[k])
  {
    var j := OwnedEntry(base, configs, table, c, k);
    CopiedFrom(base, |configs|, base[c].cameraType, configs[c].physicalNames, j, table[k]);
  }

  ghost predicate AllNamed(table: seq<Sensor>, n: nat, names: seq<string>)
    requires n <= |table|
  {
    forall m :: 0 <= m < |names| ==> !Unnamed(table, n, names[m])
  }

  lemma {:induction false} AllNamedLast(table: seq<Sensor>, n: nat, names: seq<string>)
    requires n <= |table| && names != []
    ensures AllNamed(table, n, names) <==>
            AllNamed(table, n, names[..|names| - 1]) && !Unnamed(table, n, names[|names| - 1])
  {
    assert forall k :: 0 <= k < |names| - 1 ==> names[..|names| - 1][k] == names[k];
  }

  lemma {:induction false} AllCopiedIff(table: seq<Sensor>, n: nat, cameraType: string, names: seq<string>)
    requires n <= |table|
    ensures |CopiesOfAll(table, n, cameraType, names)| <= |names|
    ensures |CopiesOfAll(table, n, cameraType, names)| == |names| <==> AllNamed(table, n, names)
  {
    if names != [] {
      var m := |names| - 1;
      AllCopiedIff(table, n, cameraType, names[..m]);
      AllNamedLast(table, n, names);
    }
  }

  /** How many of the names are found. */
  ghost function Found(table: seq<Sensor>, n: nat, names: seq<string>): nat {
    if names == [] then 0
    else Found(table, n, names[..|names| - 1]) + if Unnamed(table, n, names[|names| - 1]) then 0 else 1
  }

  lemma {:induction false} CopiesAreFound(table: seq<Sensor>, n: nat, cameraType: string, names: seq<string>)
    requires n <= |table|
    ensures |CopiesOfAll(table, n, cameraType, names)| == Found(table, n, names)
  {
    if names != [] {
      CopiesAreFound(table, n, cameraType, names[..|names| - 1]);
    }
  }

  /** The copy for name m stands behind those for the earlier names. */
  lemma {:induction false} CopyOfName(table: seq<Sensor>, n: nat, cameraType: string, names: seq<string>, m: nat,
                                      i: nat, at: nat)
    requires m < |names| && FirstNamed(table, n, names[m], i) && at == Found(table, n, names[..m])
    ensures at < |CopiesOfAll(table, n, cameraType, names)|
    ensures CopiesOfAll(table, n, cameraType, names)[at] == table[i].(cameraType := cameraType)
    decreases |names|
  {
    var init := names[..|names| - 1];
    if m < |init| {
      assert init[..m] == names[..m];
      CopyOfName(table, n, cameraType, init, m, i, at);
    } else {
      CopiesAreFound(table, n, cameraType, init);
      CopiesFirst(table, n, cameraType, names[m], i);
    }
  }

  lemma {:induction false} OwnedAt(base: seq<Sensor>, configs: seq<Config>, table: seq<Sensor>, c: nat, j: nat, at: nat)
    requires c < |configs| <= |base| && j < |Physicals(base, configs, c)| && at == |Appended(base, configs, c)| + j
    requires table == base + Appended(base, configs, |configs|)
    ensures Owned(base, configs, c)[j] == |base| + at < |table|
    ensures table[|base| + at] == Physicals(base, configs, c)[j]
  {
    AppendedAt(base, configs, c, |configs|, j, at);
  }

  /** A logical camera's entries stand in the order of its names, those that are found. */
  lemma {:induction false} OwnedInOrder(base: seq<Sensor>, configs: seq<Config>, table: seq<Sensor>, c: nat, m: nat,
                                        i: nat, j: nat)
    requires c < |configs| <= |base| && 2 <= |configs[c].physicalNames| && m < |configs[c].physicalNames|
    requires table == base + Appended(base, configs, |configs|)
    requires FirstNamed(base, |configs|, configs[c].physicalNames[m], i)
    requires j == Found(base, |configs|, configs[c].physicalNames[..m])
    ensures j < |Owned(base, configs, c)| && Owned(base, configs, c)[j] < |table|
    ensures table[Owned(base, configs, c)[j]] == base[i].(cameraType := base[c].cameraType)
  {
    CopyOfName(base, |configs|, base[c].cameraType, configs[c].physicalNames, m, i, j);
    OwnedAt(base, configs, table, c, j, |Appended(base, configs, c)| + j);
  }

  /** A camera with no more than one physical name is not logical, and owns nothing. */
  lemma {:induction false} OneNameOwnsNothing(base: seq<Sensor>, configs: seq<Config>, c: nat)
    requires c < |configs| <= |base| && |configs[c].physicalNames| <= 1
    ensures Owned(base, configs, c) == [] && Appended(base, configs, c + 1) == Appended(base, configs, c)
  {
  }

  lemma {:induction false} NamedIff(base: seq<Sensor>, configs: seq<Config>, name: string)
    requires |configs| <= |base| && forall i :: 0 <= i < |configs| ==> SlotSays(configs[i], base[i])
    ensures !Unnamed(base, |configs|, name) <==> exists i :: 0 <= i < |configs| && KnownAs(configs[i], name)
  {
    assert forall i :: 0 <= i < |configs| ==> (KnownAs(configs[i], name) <==> base[i].cameraName == name);
  }

  /** A logical camera gets all its physical cameras exactly when each name in the file is one
      under which a configured camera can be found: its own, cut to 31 characters, "logical"
      if it has none, or the empty name if its entry does not parse. So no name of 32 or more
      characters is ever found. */
  lemma {:induction false} CompleteIff(base: seq<Sensor>, configs: seq<Config>, c: nat)
    requires c < |configs| <= MAX_BASIC_CAMERA_NUM && |configs[c].physicalNames| >= 2 && base == BaseTable(configs)
    ensures |Owned(base, configs, c)| == |configs[c].physicalNames| <==>
            forall m :: 0 <= m < |configs[c].physicalNames| ==>
              exists i :: 0 <= i < |configs| && KnownAs(configs[i], configs[c].physicalNames[m])
    ensures |Owned(base, configs, c)| == |configs[c].physicalNames| <==>
            forall m :: 0 <= m < |configs[c].physicalNames| ==>
              !Unnamed(base, |configs|, configs[c].physicalNames[m])
    ensures forall m :: 0 <= m < |configs[c].physicalNames| && |configs[c].physicalNames[m]| >= 32 ==>
              Unnamed(base, |configs|, configs[c].physicalNames[m])
  {
    var names := configs[c].physicalNames;
    AllCopiedIff(base, |configs|, base[c].cameraType, names);
    forall m | 0 <= m < |names|
      ensures !Unnamed(base, |configs|, names[m]) <==> exists i :: 0 <= i < |configs| && KnownAs(configs[i], names[m])
    {
      NamedIff(base, configs, names[m]);
    }
  }
}
