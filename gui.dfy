/** The bookkeeping behind the window: the list-item text that names a
    device, the lookup of a selected item in the registry, and the three
    parallel lists a plot keeps. */
module Gui {
  import opened Wrappers
  import opened Text
  import opened Discovery
  import Session

  const KEY_SEPARATOR: string := " - "

  /** The list-item text of a registry key. */
  function DisplayKey(k: Key): string
  {
    k.model + KEY_SEPARATOR + k.serial
  }

  /** `model, sn = item.split(" - ")`: unpacking fails unless the split
      gives exactly two pieces. */
  function ParseDisplayKey(item: string): Option<Key>
  {
    var pieces := Split(item, KEY_SEPARATOR);
    if |pieces| == 2 then Some(Key(pieces[0], pieces[1])) else None
  }

  /** A key whose list-item text reads back as itself. */
  predicate Displayable(k: Key)
  {
    !Contains(k.model, KEY_SEPARATOR) && !EndsWith(k.model, " -") && !Contains(k.serial, KEY_SEPARATOR)
  }

  /** An item that parses is the text of the key it parses to. */
  lemma ParsedItemIsDisplayKey(item: string)
    requires ParseDisplayKey(item).Some?
    ensures item == DisplayKey(ParseDisplayKey(item).value)
  {
    var pieces := Split(item, KEY_SEPARATOR);
    SplitJoin(item, KEY_SEPARATOR);
    assert pieces[1..] == [pieces[1]];
  }

  /** No occurrence of the separator starts inside the model part. */
  lemma NoSeparatorInModel(k: Key, j: int)
    requires !Contains(k.model, KEY_SEPARATOR) && !EndsWith(k.model, " -")
    requires 0 <= j < |k.model|
    ensures !OccursAt(DisplayKey(k), KEY_SEPARATOR, j)
  {
    var m := k.model;
    if j + 3 <= |m| {
      ContainsIff(m, KEY_SEPARATOR);
      InsideModel(m, k.serial, j);
    } else if j == |m| - 1 {
      AtModelEnd(m, k.serial);
    } else {
      BeforeModelEnd(m, k.serial);
    }
  }

  lemma InsideModel(m: string, serial: string, j: nat)
    requires j + 3 <= |m| && !OccursAt(m, KEY_SEPARATOR, j)
    ensures !OccursAt(m + KEY_SEPARATOR + serial, KEY_SEPARATOR, j)
  {
    assert (m + KEY_SEPARATOR + serial)[j..j + 3] == m[j..j + 3];
  }

  lemma AtModelEnd(m: string, serial: string)
    requires |m| >= 1
    ensures !OccursAt(m + KEY_SEPARATOR + serial, KEY_SEPARATOR, |m| - 1)
  {
    var s := m + KEY_SEPARATOR + serial;
    var j := |m| - 1;
    assert s[j + 1] == ' ';
    if j + 3 <= |s| {
      assert s[j..j + 3][1] == ' ';
    }
  }

  lemma BeforeModelEnd(m: string, serial: string)
    requires |m| >= 2 && !EndsWith(m, " -")
    ensures !OccursAt(m + KEY_SEPARATOR + serial, KEY_SEPARATOR, |m| - 2)
  {
    var s := m + KEY_SEPARATOR + serial;
    var j := |m| - 2;
    assert s[j..j + 3][0] == m[j] && s[j..j + 3][1] == m[j + 1];
    assert m[|m| - 2..] == [m[j], m[j + 1]];
  }

  /** The list-item text reads back as the key exactly when the model holds
      no ` - `, does not end in ` -`, and the serial holds no ` - `. */
  lemma DisplayKeyRoundTrip(k: Key)
    ensures ParseDisplayKey(DisplayKey(k)) == Some(k) <==> Displayable(k)
  {
    var s := DisplayKey(k);
    var m := k.model;
    if Displayable(k) {
      forall j | 0 <= j < |m|
        ensures !OccursAt(m + KEY_SEPARATOR + k.serial, KEY_SEPARATOR, j)
      {
        NoSeparatorInModel(k, j);
      }
      SplitFirst(m, KEY_SEPARATOR, k.serial);
    }
    if ParseDisplayKey(s) == Some(k) {
      var pieces := Split(s, KEY_SEPARATOR);
      SplitPiecesFree(s, KEY_SEPARATOR);
      assert pieces[0] == m && pieces[1] == k.serial;
      if EndsWith(m, " -") {
        FindFromSpec(s, KEY_SEPARATOR, 0);
        assert s[|m| - 2..|m| + 1] == KEY_SEPARATOR;
        assert OccursAt(s, KEY_SEPARATOR, |m| - 2);
      }
    }
  }

  /** A model ending in ` -` does not survive the round trip. */
  lemma DisplayKeyTrailingDash()
    ensures ParseDisplayKey(DisplayKey(Key("X -", "1"))) != Some(Key("X -", "1"))
  {
    DisplayKeyRoundTrip(Key("X -", "1"));
    assert EndsWith("X -", " -");
  }

  /** Two keys share one list text: the item of `("X -", "1")` reads back
      as the other key `("X", "- 1")`. */
  lemma DisplayKeyCollision()
    ensures DisplayKey(Key("X -", "1")) == DisplayKey(Key("X", "- 1"))
    ensures ParseDisplayKey(DisplayKey(Key("X -", "1"))) == Some(Key("X", "- 1"))
  {
    var k := Key("X", "- 1");
    ContainsIff(k.model, KEY_SEPARATOR);
    ContainsIff(k.serial, KEY_SEPARATOR);
    assert !OccursAt(k.serial, KEY_SEPARATOR, 0) by {
      assert k.serial[0] != KEY_SEPARATOR[0];
    }
    DisplayKeyRoundTrip(k);
  }

  /** Why a selected item has no device: the text does not unpack into
      two pieces (`ValueError`), or the registry has no such key
      (`KeyError`). */
  datatype ItemError = NotAPair | UnknownDevice(key: Key)

  /** The device `startTest` looks up for a selected item. */
  function DeviceForItem(reg: Registry, item: string): Result<Device, ItemError>
  {
    match ParseDisplayKey(item)
    case None => Err(NotAPair)
    case Some(k) => if k in reg.devices then Ok(reg.devices[k]) else Err(UnknownDevice(k))
  }

  /** Every listed device whose key reads back is found again from its
      item, and a device found for an item is the one that item names. */
  lemma DeviceForItemFindsListed(reg: Registry, k: Key)
    requires RegistryInvariant(reg) && k in reg.devicesList && Displayable(k)
    ensures DeviceForItem(reg, DisplayKey(k)) == Ok(reg.devices[k])
  {
    DisplayKeyRoundTrip(k);
  }

  lemma DeviceForItemNamesDevice(reg: Registry, item: string)
    requires RegistryInvariant(reg) && DeviceForItem(reg, item).Ok?
    ensures var d := DeviceForItem(reg, item).value;
      item == DisplayKey(Key(d.modelNum, d.serialNum)) && Key(d.modelNum, d.serialNum) in reg.devicesList
  {
    ParsedItemIsDisplayKey(item);
  }

  /** Three columns of equal length read as rows. */
  function Rows(times: seq<string>, mvs: seq<string>, mas: seq<string>): (rows: seq<Session.Report>)
    requires |times| == |mvs| == |mas|
    ensures |rows| == |times|
  {
    if times == [] then []
    else Rows(times[..|times| - 1], mvs[..|mvs| - 1], mas[..|mas| - 1])
         + [Session.Report(times[|times| - 1], mvs[|mvs| - 1], mas[|mas| - 1])]
  }

  /** Row `i` is the `i`-th entry of each column. */
  lemma {:induction false} RowsAt(times: seq<string>, mvs: seq<string>, mas: seq<string>, i: nat)
    requires |times| == |mvs| == |mas| && i < |times|
    ensures Rows(times, mvs, mas)[i] == Session.Report(times[i], mvs[i], mas[i])
  {
    if i < |times| - 1 {
      RowsAt(times[..|times| - 1], mvs[..|mvs| - 1], mas[..|mas| - 1], i);
    }
  }

  /** `PlotWidget`: the time, MV and MA columns of one device's plot. */
  class PlotWidget {
    const deviceName: string
    var timeData: seq<string>
    var mvData: seq<string>
    var maData: seq<string>

    /** The three lists grow and shrink together. */
    predicate Valid()
      reads this
    {
      |timeData| == |mvData| == |maData|
    }

    /** The plotted samples, one per row of the three columns. */
    function Samples(): (samples: seq<Session.Report>)
      requires Valid()
      reads this
      ensures |samples| == |timeData|
    {
      Rows(timeData, mvData, maData)
    }

    constructor (deviceName: string)
      ensures Valid() && this.deviceName == deviceName
      ensures Samples() == []
    {
      this.deviceName := deviceName;
      timeData := [];
      mvData := [];
      maData := [];
    }

    /** `updatePlot`: one value appended to each column. */
    method UpdatePlot(timeVal: string, mv: string, ma: string)
      requires Valid()
      modifies this
      ensures Valid()
      ensures timeData == old(timeData) + [timeVal] && mvData == old(mvData) + [mv] && maData == old(maData) + [ma]
      ensures Samples() == old(Samples()) + [Session.Report(timeVal, mv, ma)]
    {
      timeData := timeData + [timeVal];
      mvData := mvData + [mv];
      maData := maData + [ma];
      assert timeData[..|timeData| - 1] == old(timeData);
      assert mvData[..|mvData| - 1] == old(mvData);
      assert maData[..|maData| - 1] == old(maData);
    }

    /** `clearPlot`: all three columns emptied. */
    method ClearPlot()
      modifies this
      ensures Valid()
      ensures timeData == [] && mvData == [] && maData == []
      ensures Samples() == []
    {
      timeData := [];
      mvData := [];
      maData := [];
    }
  }
}
