/** static_config_get_length predicts the size of the image. */
module Length {
  import opened Bits
  import opened Layouts
  import opened Image

  /** The entry size as get_length chooses it: the P/Q/R/S size if the device is one, else
      the E/T size. (pack asks for E/T first.) */
  function LengthSize(k: Kind, deviceId: uint64): nat {
    Size(k, !IsPqrs(deviceId))
  }

  /** Table headers of the tables from position i on. */
  function HeaderCount(c: Config, i: nat): nat
    requires Shape(c) && i <= 19
    decreases 19 - i
  {
    if i == 19 then 0 else (if c.tables[KindAt(i)].count != 0 then 1 else 0) + HeaderCount(c, i + 1)
  }

  function EntrySizes(c: Config, i: nat): nat
    requires Shape(c) && i <= 19
    decreases 19 - i
  {
    if i == 19 then 0
    else c.tables[KindAt(i)].count * LengthSize(KindAt(i), c.deviceId) + EntrySizes(c, i + 1)
  }

  /** static_config_get_length, in unsigned 32-bit arithmetic. */
  function GetLength(c: Config): uint32
    requires Shape(c)
  {
    var headerCount := HeaderCount(c, 0) + 1;
    (SIZE_DEVICE_ID + headerCount * (SIZE_TABLE_HEADER + 4) + EntrySizes(c, 0) - 4) % 0x1_0000_0000
  }

  lemma TableBytesBound(k: Kind, et: bool, n: nat)
    requires n <= MaxCount(k)
    ensures n * Size(k, et) <= 32768 && n * Size(k, et) % 4 == 0
  {
    var max, size := MaxCount(k), Size(k, et);
    assert max * size <= 32768;
    TimesMonotone(n, max, size);
    EntriesLength(k, et, n);
  }

  lemma TableBytesLength(c: Config, k: Kind)
    requires Shape(c) && CountsInRange(c) && DeviceIdValid(c.deviceId)
    ensures var n := c.tables[k].count;
            && |TableBytesOf(c, k)| == (if n == 0 then 0 else 16) + n * LengthSize(k, c.deviceId)
            && |TableBytesOf(c, k)| <= 32784 && |TableBytesOf(c, k)| % 4 == 0
  {
    hide TableBytes;
    TableBytesBound(k, IsEt(c.deviceId), c.tables[k].count);
    assert IsEt(c.deviceId) == !IsPqrs(c.deviceId);
  }

  lemma LengthStep(c: Config, i: nat)
    requires Shape(c) && CountsInRange(c) && i < 19
    ensures var n := c.tables[KindAt(i)].count;
            && TablesFrom(c, i) == TableBytesOf(c, KindAt(i)) + TablesFrom(c, i + 1)
            && 16 * HeaderCount(c, i) == (if n == 0 then 0 else 16) + 16 * HeaderCount(c, i + 1)
            && EntrySizes(c, i) == n * LengthSize(KindAt(i), c.deviceId) + EntrySizes(c, i + 1)
  {
    hide TableBytesOf, KindAt;
  }

  lemma NoTablesLength(c: Config)
    requires Shape(c) && CountsInRange(c)
    ensures |TablesFrom(c, 19)| == 0 == HeaderCount(c, 19) == EntrySizes(c, 19)
  {
  }

  lemma {:induction false} TablesLength(c: Config, i: nat)
    requires Shape(c) && CountsInRange(c) && DeviceIdValid(c.deviceId) && i <= 19
    ensures |TablesFrom(c, i)| == 16 * HeaderCount(c, i) + EntrySizes(c, i)
    ensures |TablesFrom(c, i)| <= 32784 * (19 - i) && |TablesFrom(c, i)| % 4 == 0
    decreases 19 - i
  {
    hide *;
    if i == 19 {
      NoTablesLength(c);
    } else {
      TableBytesLength(c, KindAt(i));
      TablesLength(c, i + 1);
      LengthStep(c, i);
    }
  }

  /** For every valid device id and all counts within their arrays, get_length is exactly the
      number of bytes of the image: no wrap-around occurs, and it is a multiple of four. */
  lemma LengthIsExact(c: Config)
    requires Shape(c) && CountsInRange(c) && DeviceIdValid(c.deviceId)
    ensures GetLength(c) == |ImageOf(c)|
    ensures |ImageOf(c)| % 4 == 0 && 16 <= |ImageOf(c)| <= 622_912
  {
    hide TablesFrom, HeaderCount, EntrySizes, FinalHeader, Word;
    TablesLength(c, 0);
  }
}
