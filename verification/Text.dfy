/** String order as SQLite's BINARY collation sees it, decimal numbers, and the
    primary key `imap-{account}-{folder}-{uid}` of a message row. */
module Text {
  import opened Prelude

  /** Strict lexicographic order on code points. */
  predicate Less(a: string, b: string) {
    b != [] && (a == [] || a[0] < b[0] || (a[0] == b[0] && Less(a[1..], b[1..])))
  }

  lemma {:induction false} LessTransitive(a: string, b: string, c: string)
    requires Less(a, b) && Less(b, c)
    ensures Less(a, c)
  {
    if a != [] && a[0] == b[0] && b[0] == c[0] {
      LessTransitive(a[1..], b[1..], c[1..]);
    }
  }

  lemma {:induction false} LessIrreflexive(a: string)
    ensures !Less(a, a)
  {
    if a != [] {
      LessIrreflexive(a[1..]);
    }
  }

  lemma {:induction false} LessTotal(a: string, b: string)
    ensures Less(a, b) || a == b || Less(b, a)
  {
    if a != [] && b != [] && a[0] == b[0] {
      LessTotal(a[1..], b[1..]);
      assert a == [a[0]] + a[1..] && b == [b[0]] + b[1..];
    }
  }

  /** The first difference decides; a proper prefix is less. */
  lemma {:induction false} LessMeaning(a: string, b: string)
    ensures Less(a, b) <==>
              exists i :: 0 <= i <= |a| && i < |b| && a[..i] == b[..i] && (i == |a| || a[i] < b[i])
  {
    if a != [] && b != [] && a[0] == b[0] {
      var s, t := a[1..], b[1..];
      LessMeaning(s, t);
      if Less(a, b) {
        var i :| 0 <= i <= |s| && i < |t| && s[..i] == t[..i] && (i == |s| || s[i] < t[i]);
        assert a[..i + 1] == [a[0]] + s[..i] && b[..i + 1] == [b[0]] + t[..i];
      }
      if i :| 0 <= i <= |a| && i < |b| && a[..i] == b[..i] && (i == |a| || a[i] < b[i]) {
        assert i > 0 && s[..i - 1] == a[..i][1..] && t[..i - 1] == b[..i][1..];
        assert i < |a| ==> s[i - 1] < t[i - 1];
      }
    } else if Less(a, b) {
      assert a[..0] == b[..0];
    } else if i :| 0 <= i <= |a| && i < |b| && a[..i] == b[..i] && (i == |a| || a[i] < b[i]) {
      assert i > 0 ==> a[..i][0] == b[..i][0];
    }
  }

  const DIGITS: string := "0123456789"

  /** Decimal rendering without leading zeros, as `{uid}` in a format string. */
  function Decimal(n: nat): (s: string)
    ensures s != [] && (|s| == 1 <==> n < 10)
    ensures forall i :: 0 <= i < |s| ==> s[i] in DIGITS
  {
    if n < 10 then [DIGITS[n]] else Decimal(n / 10) + [DIGITS[n % 10]]
  }

  lemma DigitInjective(d: nat, e: nat)
    requires d < 10 && e < 10 && DIGITS[d] == DIGITS[e]
    ensures d == e
  {}

  lemma {:induction false} DecimalInjective(m: nat, n: nat)
    requires Decimal(m) == Decimal(n)
    ensures m == n
  {
    var s := Decimal(m);
    if m < 10 {
      DigitInjective(m, n);
    } else {
      assert s[..|s| - 1] == Decimal(m / 10) && s[..|s| - 1] == Decimal(n / 10);
      assert s[|s| - 1] == DIGITS[m % 10] && s[|s| - 1] == DIGITS[n % 10];
      DigitInjective(m % 10, n % 10);
      DecimalInjective(m / 10, n / 10);
    }
  }

  /** The number a string of digits stands for. */
  function Value(s: string): nat
    requires forall i :: 0 <= i < |s| ==> '0' <= s[i] <= '9'
  {
    if s == [] then 0 else 10 * Value(s[..|s| - 1]) + (s[|s| - 1] as int - '0' as int)
  }

  lemma DigitValue(d: nat)
    requires d < 10
    ensures '0' <= DIGITS[d] <= '9' && DIGITS[d] as int - '0' as int == d
  {}

  /** Reading the digits back gives the number, and there is no leading zero. */
  lemma {:induction false} DecimalReads(n: nat)
    ensures forall i :: 0 <= i < |Decimal(n)| ==> '0' <= Decimal(n)[i] <= '9'
    ensures Value(Decimal(n)) == n
    ensures Decimal(n)[0] == '0' <==> n == 0
  {
    if n < 10 {
      DigitValue(n);
    } else {
      DecimalReads(n / 10);
      DigitValue(n % 10);
      assert Decimal(n)[..|Decimal(n)| - 1] == Decimal(n / 10);
    }
  }

  /** The stable primary key of an IMAP message. */
  function MessageId(account: string, folder: string, uid: u32): string {
    "imap-" + account + "-" + folder + "-" + Decimal(uid)
  }

  lemma NoDashAfter(t: string, f: string, d: string, i: nat)
    requires t == f + ("-" + d)
    requires forall i :: 0 <= i < |d| ==> d[i] in DIGITS
    requires i < |t| && t[i] == '-'
    ensures i <= |f|
  {
    forall j | |f| < j < |t| ensures t[j] != '-' {
      assert t[j] == d[j - |f| - 1];
    }
  }

  /** A string splits in one way only at a dash followed by digits. */
  lemma LastDashSplits(t: string, f: string, d: string, f': string, d': string)
    requires t == f + ("-" + d) && t == f' + ("-" + d')
    requires forall i :: 0 <= i < |d| ==> d[i] in DIGITS
    requires forall i :: 0 <= i < |d'| ==> d'[i] in DIGITS
    ensures f == f' && d == d'
  {
    NoDashAfter(t, f, d, |f'|);
    NoDashAfter(t, f', d', |f|);
    assert f == t[..|f|] == f';
    assert d == t[|f| + 1..] == d';
  }

  /** For accounts of equal length the key determines account, folder and uid,
      whatever dashes and digits the folder path contains. */
  lemma MessageIdInjective(a: string, f: string, u: u32, a': string, f': string, u': u32)
    requires |a| == |a'|
    requires MessageId(a, f, u) == MessageId(a', f', u')
    ensures a == a' && f == f' && u == u'
  {
    var s := MessageId(a, f, u);
    assert s[5..5 + |a|] == a && s[5..5 + |a|] == a';
    var t := s[6 + |a|..];
    assert t == f + ("-" + Decimal(u)) && t == f' + ("-" + Decimal(u'));
    LastDashSplits(t, f, Decimal(u), f', Decimal(u'));
    DecimalInjective(u, u');
  }

  /** Without the length assumption the key is ambiguous. */
  lemma MessageIdAmbiguous()
    ensures MessageId("a-b", "c", 1) == MessageId("a", "b-c", 1)
  {
    assert MessageId("a-b", "c", 1) == "imap-a-b-c-1";
    assert MessageId("a", "b-c", 1) == "imap-a-b-c-1";
  }
}
