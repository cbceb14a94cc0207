/**
 add_key05.c: the arithmetic that drives a user's key quota to its limits exactly.
 */
module KeyQuota {
  const MAX_PAYLOAD: int := 32767
  const PAYLOAD: int := 64

  datatype Reply = Added | EINVAL | EDQUOT

  datatype Quota = Quota(keys: nat, maxKeys: nat, bytes: nat, maxBytes: nat)

  /** What a key costs: its description with the terminating byte, its payload, and a constant
      the test measures. */
  function Charge(desc: string, plen: int, delta: nat): int {
    |desc| + 1 + plen + delta
  }

  function Answer(q: Quota, desc: string, plen: int, delta: nat): Reply {
    if plen <= 0 || plen > MAX_PAYLOAD then EINVAL
    else if q.keys + 1 > q.maxKeys || q.bytes + Charge(desc, plen, delta) > q.maxBytes then EDQUOT
    else Added
  }

  function Charged(q: Quota, desc: string, plen: int, delta: nat): Quota {
    if Answer(q, desc, plen, delta) == Added then q.(keys := q.keys + 1, bytes := q.bytes + Charge(desc, plen, delta))
    else q
  }

  /** The decimal digits sprintf writes. */
  function Decimal(n: nat): (s: string)
    ensures |s| >= 1
  {
    if n < 10 then [('0' as int + n) as char] else Decimal(n / 10) + [('0' as int + n % 10) as char]
  }

  function Desc(i: nat): string {
    "abc" + Decimal(i)
  }

  /** The bytes charged for the keys numbered from..to. */
  function Cost(from: nat, to: nat, delta: nat): nat
    decreases to - from
  {
    if from > to then 0 else Charge(Desc(from), PAYLOAD, delta) + Cost(from + 1, to, delta)
  }

  /** Exactly when verify_max_bytes passes: there is room for the three filler keys, then for a
      last key of at least one byte, the payload one byte too long is still a legal one, and four
      more keys may be added. */
  predicate RoomForBytes(q: Quota, delta: nat) {
    && q.keys + 4 <= q.maxKeys
    && 1 <= q.maxBytes - q.bytes - 3 * (70 + delta) - delta - 9
    && q.maxBytes - q.bytes - (70 + delta) - delta - 8 <= 32767
  }

  /** Exactly when verify_max_keys passes: no key is missing, or the bytes suffice for all that are. */
  predicate RoomForKeys(q: Quota, delta: nat) {
    q.keys == q.maxKeys
    || (q.keys < q.maxKeys && q.bytes + Cost(q.keys + 1, q.maxKeys, delta) <= q.maxBytes)
  }

  class User {
    const delta: nat
    var quota: Quota
    /** The descriptions of the keys in the process's own keyring. */
    var held: set<string>

    constructor (quota: Quota, delta: nat)
      ensures this.quota == quota && this.delta == delta && held == {}
    {
      this.quota, this.delta, held := quota, delta, {};
    }

    /** add_key of a description not held: one that is held would be updated, at no new charge. */
    method AddKey(desc: string, plen: int) returns (r: Reply)
      requires desc !in held
      modifies this
      ensures r == Answer(old(quota), desc, plen, delta) && quota == Charged(old(quota), desc, plen, delta)
      ensures held == old(held) + if r == Added then {desc} else {}
    {
      r := Answer(quota, desc, plen, delta);
      quota := Charged(quota, desc, plen, delta);
      if r == Added {
        held := held + {desc};
      }
    }

    /**
     verify_max_bytes: passes exactly when there is room, and then the last key brings the use
     to the limit to the byte, the payload that was refused behind the first key would have gone
     one byte over it, and the last payload fits the buffer that was allocated for that one.
     */
    method VerifyMaxBytes() returns (passed: bool, bufLen: int, plen: int)
      requires held == {"test1"}
      modifies this
      ensures passed ==> held == {"test1", "test2", "test3", "test4", "test_max"}
      ensures passed <==> RoomForBytes(old(quota), delta)
      ensures passed ==> quota.bytes == quota.maxBytes && quota.keys == old(quota.keys) + 4
      ensures passed ==> 1 <= plen <= bufLen
      ensures passed ==>
                old(quota.bytes) + Charge("test2", PAYLOAD, delta) + Charge("test_inv", bufLen, delta)
                == quota.maxBytes + 1
    {
      passed, bufLen, plen := true, 0, 0;
      var tmpUsed := quota.bytes;
      var r := AddKey("test2", PAYLOAD);
      if r != Added { return false, 0, 0; }
      var used, max := quota.bytes, quota.maxBytes;
      var d := used - tmpUsed - |"test2"| - 1 - 64;
      var invalidPlen := max - used - d - |"test_xxx"|;
      if invalidPlen < 0 { return false, 0, 0; }
      bufLen := invalidPlen;
      r := AddKey("test_inv", invalidPlen);
      if r == Added { return false, bufLen, 0; }
      if r != EDQUOT { passed := false; }
      r := AddKey("test3", PAYLOAD);
      if r != Added { return false, bufLen, 0; }
      r := AddKey("test4", PAYLOAD);
      if r != Added { return false, bufLen, 0; }
      used, max := quota.bytes, quota.maxBytes;
      plen := max - used - d - |"test_xxx"| - 1;
      r := AddKey("test_max", plen);
      if r != Added { return false, bufLen, plen; }
      passed := passed && quota.bytes == quota.maxBytes;
    }

    /** verify_max_keys: passes exactly when the bytes suffice, and then every key allowed is in
        use and one more was refused. */
    method VerifyMaxKeys() returns (passed: bool)
      requires held == {"test1"}
      modifies this
      ensures passed ==> held == {"test1"} + set i: nat | old(quota.keys) < i <= quota.maxKeys :: Desc(i)
      ensures passed <==> RoomForKeys(old(quota), delta)
      ensures passed ==> quota.keys == quota.maxKeys
      ensures passed ==> quota.bytes == old(quota.bytes) + Cost(old(quota.keys) + 1, quota.maxKeys, delta)
    {
      hide Decimal;
      var usedKey, maxKey := quota.keys, quota.maxKeys;
      var i: nat := usedKey + 1;
      while i <= maxKey
        invariant usedKey + 1 <= i && (i <= maxKey + 1 || i == usedKey + 1)
        invariant quota.keys == i - 1 && quota.maxKeys == maxKey && quota.maxBytes == old(quota.maxBytes)
        invariant quota.bytes + Cost(i, maxKey, delta) == old(quota.bytes) + Cost(usedKey + 1, maxKey, delta)
        invariant quota.bytes <= quota.maxBytes || i == usedKey + 1
        invariant held == {"test1"} + set j: nat | usedKey < j < i :: Desc(j)
      {
        NewDesc(usedKey, i);
        OtherDesc(usedKey, i);
        var r := AddKey(Desc(i), PAYLOAD);
        if r != Added {
          return false;
        }
        i := i + 1;
      }
      OtherDesc(usedKey, i);
      var r := AddKey("test_invalid_key", PAYLOAD);
      if r == Added {
        return false;
      }
      passed := r == EDQUOT && quota.keys == quota.maxKeys;
    }

    /** The child of do_test, with nothing in its keyring: a first key, then one of the two checks. */
    method DoTest(n: nat) returns (passed: bool)
      requires held == {}
      modifies this
      ensures passed <==>
                && Answer(old(quota), "test1", PAYLOAD, delta) == Added
                && var q := Charged(old(quota), "test1", PAYLOAD, delta);
                   if n != 0 then RoomForKeys(q, delta) else RoomForBytes(q, delta)
      ensures passed ==> if n != 0 then quota.keys == quota.maxKeys else quota.bytes == quota.maxBytes
    {
      hide RoomForKeys, RoomForBytes;
      var r := AddKey("test1", PAYLOAD);
      if r != Added {
        return false;
      }
      if n != 0 {
        passed := VerifyMaxKeys();
      } else {
        var bufLen, plen;
        passed, bufLen, plen := VerifyMaxBytes();
      }
    }
  }

  /** The number a string of digits denotes. */
  ghost function Denoted(s: string): int {
    if s == "" then 0 else 10 * Denoted(s[..|s| - 1]) + (s[|s| - 1] as int - 48)
  }

  /** The digits are digits, without a leading zero, and denote the number. */
  lemma {:induction false} DecimalDenotes(n: nat)
    ensures var s := Decimal(n);
            && Denoted(s) == n && (forall k | 0 <= k < |s| :: 48 <= s[k] as int <= 57)
            && (n > 0 ==> s[0] != '0')
  {
    if n < 10 {
      assert Decimal(n)[..0] == "";
    } else {
      var s := Decimal(n);
      DecimalDenotes(n / 10);
      assert s[..|s| - 1] == Decimal(n / 10);
    }
  }

  /** Different keys get different descriptions. */
  lemma DescDistinct(i: nat, j: nat)
    requires Desc(i) == Desc(j)
    ensures i == j
  {
    hide Decimal;
    DecimalDenotes(i);
    DecimalDenotes(j);
    assert Desc(i)[3..] == Decimal(i) && Desc(j)[3..] == Decimal(j);
  }

  lemma NewDesc(from: nat, i: nat)
    ensures Desc(i) !in set j: nat | from < j < i :: Desc(j)
    ensures (set j: nat | from < j < i + 1 :: Desc(j))
         == (set j: nat | from < j < i :: Desc(j)) + if from < i then {Desc(i)} else {}
  {
    hide Desc;
    forall j: nat | from < j < i ensures Desc(j) != Desc(i) {
      if Desc(j) == Desc(i) {
        DescDistinct(i, j);
      }
    }
  }

  lemma OtherDesc(from: nat, to: nat)
    ensures "test_invalid_key" !in set j: nat | from < j < to :: Desc(j)
    ensures Desc(to) != "test1"
  {
    hide Decimal;
    forall j: nat ensures Desc(j)[0] == 'a' {}
  }

  /** sprintf(desc, "abc%d", i) fits its 15 bytes for every int. */
  lemma {:induction false} DecimalLength(n: nat, digits: nat, bound: nat)
    requires digits >= 1 && bound == Pow10(digits) && n < bound
    ensures |Decimal(n)| <= digits
    decreases digits
  {
    if n < 10 {
    } else {
      DecimalLength(n / 10, digits - 1, bound / 10);
    }
  }

  function Pow10(k: nat): nat {
    if k == 0 then 1 else 10 * Pow10(k - 1)
  }

  lemma DescFits(i: nat)
    requires i <= 0x7FFF_FFFF
    ensures |Desc(i)| + 1 <= 15
  {
    assert Pow10(2) == 100;
    assert Pow10(4) == 10000;
    assert Pow10(6) == 1000000;
    assert Pow10(8) == 100000000;
    DecimalLength(i, 10, Pow10(10));
  }
}
