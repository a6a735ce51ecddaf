/**
 * The placeholder storage key `placeholder/<epoch-millis>_<originalFilename>`
 * that createUpload records, with the decimal rendering a JavaScript template
 * literal gives a non-negative integer.
 */
module StorageKeys {
  import opened Wrappers

  const KeyPrefix := "placeholder/"

  predicate IsDigit(c: char)
  {
    '0' <= c <= '9'
  }

  predicate AllDigits(s: string)
  {
    forall i :: 0 <= i < |s| ==> IsDigit(s[i])
  }

  function DigitChar(d: nat): (c: char)
    requires d < 10
    ensures IsDigit(c)
  {
    (48 + d) as char
  }

  function DigitValue(c: char): nat
    requires IsDigit(c)
  {
    c as nat - 48
  }

  /** The decimal text of `n`, without sign or leading zeros. */
  function Decimal(n: nat): (s: string)
    ensures |s| > 0 && AllDigits(s)
    ensures |s| > 1 ==> s[0] != '0'
  {
    if n < 10 then [DigitChar(n)]
    else Decimal(n / 10) + [DigitChar(n % 10)]
  }

  /** The number a string of decimal digits denotes. */
  function ParseDecimal(s: string): nat
    requires AllDigits(s)
  {
    if s == [] then 0
    else ParseDecimal(s[..|s| - 1]) * 10 + DigitValue(s[|s| - 1])
  }

  lemma {:induction false} ParseDecimalOfDecimal(n: nat)
    ensures ParseDecimal(Decimal(n)) == n
  {
    var s := Decimal(n);
    if n < 10 {
      assert s[..|s| - 1] == [];
    } else {
      ParseDecimalOfDecimal(n / 10);
      assert s[..|s| - 1] == Decimal(n / 10);
    }
  }

  /** The key createUpload stores for a file uploaded at `now`. */
  function StorageKey(now: nat, filename: string): (key: string)
    ensures |key| > |KeyPrefix| + |filename| + 1
    ensures key[..|KeyPrefix|] == KeyPrefix
    ensures AllDigits(key[|KeyPrefix|..|key| - |filename| - 1])
    ensures key[|KeyPrefix|..|key| - |filename| - 1] == Decimal(now)
    ensures key[|key| - |filename| - 1] == '_'
    ensures key[|key| - |filename|..] == filename
  {
    var key := KeyPrefix + Decimal(now) + "_" + filename;
    assert key[|KeyPrefix|..|key| - |filename| - 1] == Decimal(now);
    assert key[|key| - |filename|..] == filename;
    key
  }

  /** The position of the first `c` in `s`, or `|s|` when there is none. */
  function IndexOf(s: string, c: char): (i: nat)
    ensures i <= |s|
    ensures i < |s| ==> s[i] == c
    ensures forall j :: 0 <= j < i ==> s[j] != c
  {
    if s == [] then 0
    else if s[0] == c then 0
    else 1 + IndexOf(s[1..], c)
  }

  /**
   * Reads a storage key back into the timestamp and the filename: the prefix,
   * then a run of digits up to the first underscore, then the filename.
   */
  function ParseStorageKey(key: string): Option<(nat, string)>
  {
    if |key| < |KeyPrefix| || key[..|KeyPrefix|] != KeyPrefix then None
    else
      var rest := key[|KeyPrefix|..];
      var i := IndexOf(rest, '_');
      if i == 0 || i == |rest| || !AllDigits(rest[..i]) then None
      else Some((ParseDecimal(rest[..i]), rest[i + 1..]))
  }

  /** The key records both the timestamp and the original filename recoverably. */
  lemma StorageKeyRoundTrip(now: nat, filename: string)
    ensures ParseStorageKey(StorageKey(now, filename)) == Some((now, filename))
  {
    var digits := Decimal(now);
    var key := StorageKey(now, filename);
    var rest := digits + "_" + filename;
    assert key == KeyPrefix + rest;
    assert key[..|KeyPrefix|] == KeyPrefix;
    assert key[|KeyPrefix|..] == rest;
    assert rest[|digits|] == '_';
    forall j | 0 <= j < |digits| ensures rest[j] != '_' {
      assert rest[j] == digits[j];
    }
    assert IndexOf(rest, '_') == |digits|;
    assert rest[..|digits|] == digits;
    assert rest[|digits| + 1..] == filename;
    ParseDecimalOfDecimal(now);
  }

  /**
   * Two uploads receive the same storage key only when they share both the
   * millisecond and the original filename.
   */
  lemma StorageKeyInjective(now1: nat, filename1: string, now2: nat, filename2: string)
    requires StorageKey(now1, filename1) == StorageKey(now2, filename2)
    ensures now1 == now2 && filename1 == filename2
  {
    StorageKeyRoundTrip(now1, filename1);
    StorageKeyRoundTrip(now2, filename2);
  }
}
