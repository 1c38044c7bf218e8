/** The packed sort keys of an entry: the 24-bit date of filesearch/fs_common.c and the 12-bit size
    of filesearch/util.c. Shifts, masks and unsigned casts are written as divisions and remainders. */
module PackedKeys {
  import opened FileTree

  // ---------- dates ----------

  const YEAR_START := 1990

  /** The calendar fields that are packed; months count from 1 on Windows, from 0 elsewhere. */
  datatype Date = Date(year: nat, month: nat, day: nat, hour: nat, minute: nat)

  predicate IsDate(d: Date) {
    d.month <= 12 && 1 <= d.day <= 31 && d.hour < 24 && d.minute < 60
  }

  /** ConvertSystemTimeToMinute: 5 bits of minute / 2, 5 of hour, 5 of day, 4 of month, then the year. */
  function Minutes(d: Date): nat
    requires IsDate(d)
  {
    if d.year < YEAR_START then 0
    else d.minute / 2 + 0x20 * d.hour + 0x400 * d.day + 0x8000 * d.month + 0x8_0000 * (d.year - YEAR_START)
  }

  /** ConvertMinuteToSystemTime. */
  function DateOf(time: nat): Date {
    Date(time / 0x8_0000 + YEAR_START, time / 0x8000 % 16, time / 0x400 % 32, time / 0x20 % 32, time % 32 * 2)
  }

  /** SET_TIME: three bytes, so that higher bits are lost. */
  function SetTime(a: Attrs, time: nat): Attrs {
    a.(time1 := time / 0x1_0000 % 256, time2 := time / 0x100 % 256, time3 := time % 256)
  }

  function GetTime(a: Attrs): nat {
    a.time1 * 0x1_0000 + a.time2 * 0x100 + a.time3
  }

  lemma TimeStored(a: Attrs, time: nat)
    ensures GetTime(SetTime(a, time)) == time % 0x100_0000
  {
    var h := time / 0x100;
    var m := h / 0x100;
    DivTwice(time);
    assert time == 0x1_0000 * m + h % 256 * 0x100 + time % 256;
    ThreeBytes(time, m / 256, m % 256 * 0x1_0000 + h % 256 * 0x100 + time % 256);
  }

  lemma DivTwice(n: nat)
    ensures n / 0x100 / 0x100 == n / 0x1_0000
  {
  }

  lemma ThreeBytes(n: nat, high: nat, low: nat)
    requires n == 0x100_0000 * high + low && low < 0x100_0000
    ensures n % 0x100_0000 == low
  {
  }

  lemma DateUnpacked(d: Date)
    requires IsDate(d) && d.year >= YEAR_START
    ensures DateOf(Minutes(d)) == d.(minute := d.minute / 2 * 2)
  {
    var t := Minutes(d);
    var y := d.year - YEAR_START;
    Digit(t, d.minute / 2, d.hour + 0x20 * d.day + 0x400 * d.month + 0x4000 * y, 32);
    assert t / 0x20 == d.hour + 0x20 * d.day + 0x400 * d.month + 0x4000 * y;
    Digit(t / 0x20, d.hour, d.day + 0x20 * d.month + 0x200 * y, 32);
    assert t / 0x20 / 32 == t / 0x400;
    Digit(t / 0x400, d.day, d.month + 0x10 * y, 32);
    assert t / 0x400 / 32 == t / 0x8000;
    Digit(t / 0x8000, d.month, y, 16);
    assert t / 0x8000 / 16 == t / 0x8_0000;
  }

  lemma Digit(n: nat, low: nat, high: nat, base: nat)
    requires base == 32 || base == 16
    requires n == low + base * high && low < base
    ensures n % base == low && n / base == high
  {
    if base == 32 {
      assert n == low + 32 * high;
    }
  }

  /** The three bytes of a date, high byte first: 30 June 2012, 21:58. */
  lemma DateBytes(a: Attrs, d: Date)
    requires d == Date(2012, 6, 30, 21, 58)
    ensures IsDate(d) && Minutes(d) == 0xB37ABD
    ensures var s := SetTime(a, Minutes(d)); s.time1 == 0xB3 && s.time2 == 0x7A && s.time3 == 0xBD
  {
    assert Minutes(d) == 0xB37ABD;
    hide Minutes;
  }

  /** A date comes back from its three bytes, minutes rounded down to even, exactly in the 32 years
      that five bits can tell apart. */
  lemma DateSurvives(a: Attrs, d: Date)
    requires IsDate(d)
    ensures DateOf(GetTime(SetTime(a, Minutes(d)))) == d.(minute := d.minute / 2 * 2)
            <==> 1990 <= d.year <= 2021
  {
    hide Minutes, DateOf, SetTime, GetTime, IsDate;
    TimeStored(a, Minutes(d));
    YearStored(Minutes(d));
    if 1990 <= d.year <= 2021 {
      DateUnpacked(d);
      KeyIs(a, d);
    }
  }

  lemma KeyIs(a: Attrs, d: Date)
    requires IsDate(d) && 1990 <= d.year <= 2021
    ensures GetTime(SetTime(a, Minutes(d))) == Minutes(d)
  {
    TimeStored(a, Minutes(d));
    Fits24(d);
    hide Minutes, SetTime, GetTime;
  }

  lemma YearStored(t: nat)
    ensures 1990 <= DateOf(t % 0x100_0000).year <= 2021
  {
  }

  lemma Fits24(d: Date)
    requires IsDate(d) && 1990 <= d.year <= 2021
    ensures Minutes(d) < 0x100_0000
  {
  }

  /** Earlier, as far as minutes rounded down to even tell. */
  predicate Before(d: Date, e: Date) {
    || d.year < e.year
    || (d.year == e.year && (
          || d.month < e.month
          || (d.month == e.month && (
                || d.day < e.day
                || (d.day == e.day && (d.hour < e.hour || (d.hour == e.hour && d.minute / 2 < e.minute / 2)))))))
  }

  /** Sorting by the stored key is sorting by time. */
  lemma DateOrder(a: Attrs, d: Date, b: Attrs, e: Date)
    requires IsDate(d) && IsDate(e) && 1990 <= d.year <= 2021 && 1990 <= e.year <= 2021
    ensures GetTime(SetTime(a, Minutes(d))) < GetTime(SetTime(b, Minutes(e))) <==> Before(d, e)
  {
    hide *;
    KeyIs(a, d);
    KeyIs(b, e);
    MinutesOrder(d, e);
  }

  lemma MinutesOrder(d: Date, e: Date)
    requires IsDate(d) && IsDate(e) && d.year >= 1990 && e.year >= 1990
    ensures Minutes(d) < Minutes(e) <==> Before(d, e)
  {
    var y, y' := d.year - 1990, e.year - 1990;
    var m, m' := d.month + 16 * y, e.month + 16 * y';
    var n, n' := d.day + 32 * m, e.day + 32 * m';
    var h, h' := d.hour + 32 * n, e.hour + 32 * n';
    assert Minutes(d) == d.minute / 2 + 32 * h && Minutes(e) == e.minute / 2 + 32 * h';
    hide Minutes;
    Leading(d.month, y, e.month, y', 16);
    Leading(d.day, m, e.day, m', 32);
    Leading(d.hour, n, e.hour, n', 32);
    Leading(d.minute / 2, h, e.minute / 2, h', 32);
  }

  lemma Leading(low: nat, high: nat, low': nat, high': nat, base: nat)
    requires (base == 16 || base == 32) && low < base && low' < base
    ensures low + base * high < low' + base * high' <==> high < high' || (high == high' && low < low')
    ensures low + base * high == low' + base * high' <==> high == high' && low == low'
  {
  }

  // ---------- sizes ----------

  type ushort = n: int | 0 <= n < 0x1_0000

  /** 0x400 | n, 0x800 | n and 0xc00 | n. */
  function Or400(n: ushort): ushort { if n / 0x400 % 2 == 1 then n else n + 0x400 }

  function Or800(n: ushort): ushort { if n / 0x800 % 2 == 1 then n else n + 0x800 }

  function OrC00(n: ushort): ushort { Or800(Or400(n)) }

  function Shortened(size: nat): ushort {
    var g: ushort, m: ushort, k: ushort :=
      size / 1_000_000_000 % 0x1_0000, size / 1_000_000 % 0x1_0000, size / 1000 % 0x1_0000;
    if g > 0 then OrC00(g) else if m > 0 then Or800(m) else if k > 0 then Or400(k) else size % 0x1_0000
  }

  /** SET_SIZE and GET_SIZE: a four-bit field and a byte. */
  function SetSize(a: Attrs, size: ushort): Attrs {
    a.(size1 := size / 0x100 % 16, size2 := size % 0x100)
  }

  function GetSize(a: Attrs): nat {
    a.size1 * 0x100 + a.size2
  }

  function FileSizeUnit(size: nat): nat { size / 0x400 }

  function FileSizeAmount(size: nat): nat { size % 0x400 }

  function Power1000(n: nat): nat {
    if n == 0 then 1 else if n == 1 then 1000 else if n == 2 then 1_000_000 else 1_000_000_000
  }

  lemma SizeStored(a: Attrs, n: ushort)
    ensures GetSize(SetSize(a, n)) == n % 0x1000
  {
    var h := n / 0x100;
    assert n == 0x100 * h + n % 0x100 && h == 16 * (h / 16) + h % 16;
    assert n == 0x1000 * (h / 16) + (h % 16 * 0x100 + n % 0x100);
  }

  /** Below 1024 * 10^9 the key is the unit and the amount. */
  lemma SizeKey(size: nat)
    requires size < 1_024_000_000_000
    ensures Shortened(size) ==
            if size >= 1_000_000_000 then 0xC00 + size / 1_000_000_000
            else if size >= 1_000_000 then 0x800 + size / 1_000_000
            else if size >= 1000 then 0x400 + size / 1000
            else size
  {
    hide Shortened;
    if size >= 1_000_000_000 {
      Giga(size, size / 1_000_000_000);
    } else if size >= 1_000_000 {
      Mega(size, size / 1_000_000);
    } else if size >= 1000 {
      Kilo(size, size / 1000);
    } else {
      Bytes(size);
    }
  }

  lemma Giga(size: nat, n: nat)
    requires n == size / 1_000_000_000 && 0 < n < 0x400
    ensures Shortened(size) == n + 0xC00
  {
    OrSmall(n);
    hide OrC00, Or800, Or400;
    assert n % 0x1_0000 == n;
  }

  lemma Mega(size: nat, n: nat)
    requires n == size / 1_000_000 && 0 < n < 1000 && size < 1_000_000_000
    ensures Shortened(size) == n + 0x800
  {
    OrSmall(n);
    hide OrC00, Or800, Or400;
    assert size / 1_000_000_000 == 0 && n % 0x1_0000 == n;
  }

  lemma Kilo(size: nat, n: nat)
    requires n == size / 1000 && 0 < n < 1000 && size < 1_000_000
    ensures Shortened(size) == n + 0x400
  {
    OrSmall(n);
    hide OrC00, Or800, Or400;
    assert size / 1_000_000_000 == 0 && size / 1_000_000 == 0 && n % 0x1_0000 == n;
  }

  lemma Bytes(size: nat)
    requires size < 1000
    ensures Shortened(size) == size
  {
    hide OrC00, Or800, Or400;
    assert size / 1_000_000_000 == 0 && size / 1_000_000 == 0 && size / 1000 == 0 && size % 0x1_0000 == size;
  }

  /** The unit bits do not meet the bits of an amount below 1024. */
  lemma OrSmall(n: ushort)
    requires n < 0x400
    ensures Or400(n) == n + 0x400 && Or800(n) == n + 0x800 && OrC00(n) == n + 0xC00
  {
  }

  /** amount * 1000^unit <= size < (amount + 1) * 1000^unit. */
  predicate Tells(key: nat, size: nat) {
    var unit := Power1000(FileSizeUnit(key));
    FileSizeAmount(key) * unit <= size < (FileSizeAmount(key) + 1) * unit
  }

  lemma ShortenedTells(size: nat)
    ensures Tells(Shortened(size), size) <==> size < 1_024_000_000_000
  {
    if size < 1_024_000_000_000 {
      SizeKey(size);
      hide Shortened;
      if size >= 1_000_000_000 {
        KeyParts(3, size / 1_000_000_000);
      } else if size >= 1_000_000 {
        KeyParts(2, size / 1_000_000);
      } else if size >= 1000 {
        KeyParts(1, size / 1000);
      } else {
        KeyParts(0, size);
      }
    } else {
      UpperBound(Shortened(size));
    }
  }

  /** The stored size tells as much. */
  lemma SizeTold(a: Attrs, size: nat)
    ensures Tells(GetSize(SetSize(a, Shortened(size))), size) <==> size < 1_024_000_000_000
  {
    SizeStored(a, Shortened(size));
    if size < 1_024_000_000_000 {
      KeyKept(size);
      ShortenedTells(size);
      hide Shortened, SetSize, GetSize;
    } else {
      hide Shortened, SetSize, GetSize;
      UpperBound(Shortened(size) % 0x1000);
    }
  }

  lemma KeyParts(unit: nat, amount: nat)
    requires unit <= 3 && amount < 0x400
    ensures var s := unit * 0x400 + amount; s % 0x1000 == s && FileSizeUnit(s) == unit && FileSizeAmount(s) == amount
  {
  }

  lemma UpperBound(s: nat)
    ensures (FileSizeAmount(s) + 1) * Power1000(FileSizeUnit(s)) <= 1_024_000_000_000
  {
    assert FileSizeAmount(s) + 1 <= 0x400 && Power1000(FileSizeUnit(s)) in {1, 1000, 1_000_000, 1_000_000_000};
  }

  /** file_size_shorten: amounts of 10^9, 10^6, 10^3 bytes or single bytes, cast to 16 bits. Unit and amount
      of the result tell the size to within the unit, exactly for sizes below 1024 * 10^9. */
  method FileSizeShorten(size: nat) returns (r: ushort)
    ensures r == Shortened(size)
    ensures Tells(r, size) <==> size < 1_024_000_000_000
  {
    ShortenedTells(size);
    var ret: ushort := size / 1_000_000_000 % 0x1_0000;
    if ret > 0 {
      return OrC00(ret);
    }
    ret := size / 1_000_000 % 0x1_0000;
    if ret > 0 {
      return Or800(ret);
    }
    ret := size / 1000 % 0x1_0000;
    if ret > 0 {
      return Or400(ret);
    }
    return size % 0x1_0000;
  }

  /** Unit and amount in the four and eight bits of the stored key: 700_000_000 bytes are 700 of unit 2. */
  lemma SizeBits(a: Attrs, size: nat)
    requires size == 700_000_000
    ensures var s := SetSize(a, Shortened(size)); s.size1 == 0xA && s.size2 == 0xBC
  {
    SizeKey(size);
  }

  /** A larger file never has a smaller key. */
  lemma SizeOrder(a: Attrs, b: Attrs, size: nat, more: nat)
    requires size <= more < 1_024_000_000_000
    ensures GetSize(SetSize(a, Shortened(size))) <= GetSize(SetSize(b, Shortened(more)))
  {
    SizeStored(a, Shortened(size));
    SizeStored(b, Shortened(more));
    SizeKey(size);
    SizeKey(more);
    hide Shortened, SetSize, GetSize;
    KeyKept(size);
    KeyKept(more);
  }

  lemma KeyKept(size: nat)
    requires size < 1_024_000_000_000
    ensures Shortened(size) % 0x1000 == Shortened(size)
  {
    SizeKey(size);
    hide Shortened;
  }
}
