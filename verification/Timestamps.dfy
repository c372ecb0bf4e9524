/** Expiry times are stored as RFC 3339 texts in UTC with the fraction's trailing zeros cut
    (section 5.6 of RFC 3339), and SQL compares the texts. When is that the order of the instants? */
module Timestamps {
  import opened TextOrder

  /** An instant in UTC by its calendar fields. */
  datatype Instant = Instant(year: nat, month: nat, day: nat, hour: nat, minute: nat, second: nat, nano: nat)

  predicate Proper(t: Instant)
  {
    t.year < 10000 && 1 <= t.month <= 12 && 1 <= t.day <= 31 && t.hour < 24 && t.minute < 60 && t.second < 60 &&
    t.nano < 1000000000
  }

  predicate SameSecond(a: Instant, b: Instant)
  {
    a.(nano := 0) == b.(nano := 0)
  }

  /** `Before`, on whole seconds. */
  predicate EarlierSecond(a: Instant, b: Instant)
  {
    if a.year != b.year then a.year < b.year
    else if a.month != b.month then a.month < b.month
    else if a.day != b.day then a.day < b.day
    else if a.hour != b.hour then a.hour < b.hour
    else if a.minute != b.minute then a.minute < b.minute
    else a.second < b.second
  }

  predicate Before(a: Instant, b: Instant)
  {
    EarlierSecond(a, b) || (SameSecond(a, b) && a.nano < b.nano)
  }

  // ---- Fixed-width decimals ----

  function Pow10(w: nat): nat
  {
    if w == 0 then 1 else 10 * Pow10(w - 1)
  }

  function Digit(d: nat): char
    requires d < 10
  {
    '0' + d as char
  }

  function Pad(n: nat, w: nat): (s: string)
    ensures |s| == w
  {
    if w == 0 then "" else Pad(n / 10, w - 1) + [Digit(n % 10)]
  }

  /** Texts of equal width in front decide before what follows. */
  lemma {:induction false} FrontFirst(a: string, x: string, b: string, y: string)
    requires |a| == |b|
    ensures Less(a + x, b + y) <==> Less(a, b) || (a == b && Less(x, y))
  {
    if a == "" {
      assert a + x == x && b + y == y;
    } else {
      assert (a + x)[1..] == a[1..] + x && (b + y)[1..] == b[1..] + y;
      FrontFirst(a[1..], x, b[1..], y);
      assert a == b <==> a[0] == b[0] && a[1..] == b[1..] by {
        assert a == [a[0]] + a[1..] && b == [b[0]] + b[1..];
      }
    }
  }

  lemma {:induction false} PadOrder(a: nat, b: nat, w: nat)
    requires a < Pow10(w) && b < Pow10(w)
    ensures Less(Pad(a, w), Pad(b, w)) <==> a < b
    ensures Pad(a, w) == Pad(b, w) <==> a == b
  {
    if w > 0 {
      PadOrder(a / 10, b / 10, w - 1);
      var x, y := [Digit(a % 10)], [Digit(b % 10)];
      FrontFirst(Pad(a / 10, w - 1), x, Pad(b / 10, w - 1), y);
      assert Less(x, y) <==> a % 10 < b % 10;
      if Pad(a, w) == Pad(b, w) {
        assert Pad(a, w)[..w - 1] == Pad(a / 10, w - 1) && Pad(b, w)[..w - 1] == Pad(b / 10, w - 1);
        assert Pad(a, w)[w - 1] == x[0] && Pad(b, w)[w - 1] == y[0];
      }
    }
  }

  // ---- The text ----

  /** Without trailing zeros. */
  function Trimmed(s: string): (t: string)
    ensures t <= s
  {
    if s == "" then ""
    else if s[|s| - 1] == '0' then Trimmed(s[..|s| - 1])
    else s
  }

  /** The digits of the fraction that are written. */
  function Digits(t: Instant): string
  {
    Trimmed(Pad(t.nano, 9))
  }

  function Field(n: nat, w: nat, rest: string): string
  {
    Pad(n, w) + rest
  }

  function Tail(t: Instant): string
  {
    (if t.nano == 0 then "" else "." + Digits(t)) + "Z"
  }

  /** `Format(time.RFC3339Nano)`. */
  function Text(t: Instant): string
  {
    Field(t.year, 4, "-" + Field(t.month, 2, "-" + Field(t.day, 2, "T" + Field(t.hour, 2, ":" +
      Field(t.minute, 2, ":" + Field(t.second, 2, Tail(t)))))))
  }

  lemma FieldOrder(a: nat, b: nat, w: nat, x: string, y: string)
    requires a < Pow10(w) && b < Pow10(w)
    ensures Less(Field(a, w, x), Field(b, w, y)) <==> a < b || (a == b && Less(x, y))
  {
    PadOrder(a, b, w);
    FrontFirst(Pad(a, w), x, Pad(b, w), y);
  }

  lemma SeparatorSame(c: char, x: string, y: string)
    ensures Less([c] + x, [c] + y) <==> Less(x, y)
  {
    CommonPrefix([c], x, y);
  }

  lemma ClockOrder(a: Instant, b: Instant, x: string, y: string)
    requires Proper(a) && Proper(b)
    ensures Less("T" + Field(a.hour, 2, ":" + Field(a.minute, 2, ":" + Field(a.second, 2, x))),
                 "T" + Field(b.hour, 2, ":" + Field(b.minute, 2, ":" + Field(b.second, 2, y)))) <==>
            a.hour < b.hour || (a.hour == b.hour && (a.minute < b.minute || (a.minute == b.minute &&
              (a.second < b.second || (a.second == b.second && Less(x, y))))))
  {
    assert Pow10(2) == 100 by { assert Pow10(1) == 10; }
    var sa, sb := Field(a.second, 2, x), Field(b.second, 2, y);
    FieldOrder(a.second, b.second, 2, x, y);
    SeparatorSame(':', sa, sb);
    var ma, mb := Field(a.minute, 2, ":" + sa), Field(b.minute, 2, ":" + sb);
    FieldOrder(a.minute, b.minute, 2, ":" + sa, ":" + sb);
    SeparatorSame(':', ma, mb);
    FieldOrder(a.hour, b.hour, 2, ":" + ma, ":" + mb);
    SeparatorSame('T', Field(a.hour, 2, ":" + ma), Field(b.hour, 2, ":" + mb));
  }

  /** The text order is that of the seconds, then that of what follows them. */
  lemma TextBySecondThenTail(a: Instant, b: Instant)
    requires Proper(a) && Proper(b)
    ensures Less(Text(a), Text(b)) <==> EarlierSecond(a, b) || (SameSecond(a, b) && Less(Tail(a), Tail(b)))
  {
    assert Pow10(2) == 100 && Pow10(4) == 10000 by { assert Pow10(1) == 10 && Pow10(3) == 1000; }
    ClockOrder(a, b, Tail(a), Tail(b));
    var ta := "T" + Field(a.hour, 2, ":" + Field(a.minute, 2, ":" + Field(a.second, 2, Tail(a))));
    var tb := "T" + Field(b.hour, 2, ":" + Field(b.minute, 2, ":" + Field(b.second, 2, Tail(b))));
    FieldOrder(a.day, b.day, 2, ta, tb);
    SeparatorSame('-', Field(a.day, 2, ta), Field(b.day, 2, tb));
    var da, db := "-" + Field(a.day, 2, ta), "-" + Field(b.day, 2, tb);
    FieldOrder(a.month, b.month, 2, da, db);
    SeparatorSame('-', Field(a.month, 2, da), Field(b.month, 2, db));
    FieldOrder(a.year, b.year, 4, "-" + Field(a.month, 2, da), "-" + Field(b.month, 2, db));
  }

  /** In different whole seconds the texts are in the order of the instants. */
  lemma DifferentSecondsInOrder(a: Instant, b: Instant)
    requires Proper(a) && Proper(b) && !SameSecond(a, b)
    ensures Less(Text(a), Text(b)) <==> Before(a, b)
  {
    TextBySecondThenTail(a, b);
  }

  // ---- Within one second ----

  ghost predicate Zeros(s: string)
  {
    forall i :: 0 <= i < |s| ==> s[i] == '0'
  }

  lemma {:induction false} TrimmedCutsZeros(s: string)
    ensures Zeros(s[|Trimmed(s)|..])
    decreases |s|
  {
    if s != "" && s[|s| - 1] == '0' {
      var rest := s[..|s| - 1];
      TrimmedCutsZeros(rest);
      forall i | |Trimmed(s)| <= i < |s| ensures s[i] == '0'
      {
        assert i < |rest| ==> s[i] == rest[|Trimmed(s)|..][i - |Trimmed(s)|];
      }
    }
  }

  lemma {:induction false} ZerosLeast(z: string, s: string)
    requires Zeros(z) && |z| == |s| && forall i :: 0 <= i < |s| ==> '0' <= s[i]
    ensures !Less(s, z)
    decreases |z|
  {
    if z != "" && s[0] == z[0] {
      ZerosLeast(z[1..], s[1..]);
    }
  }

  lemma {:induction false} PadDigits(n: nat, w: nat)
    ensures forall i :: 0 <= i < w ==> '0' <= Pad(n, w)[i] <= '9'
  {
    if w > 0 {
      PadDigits(n / 10, w - 1);
    }
  }

  /** The later of two fractions is never written as a prefix of the earlier one. */
  lemma LaterIsNoPrefix(a: Instant, b: Instant)
    requires Proper(a) && Proper(b) && a.nano < b.nano
    ensures !(Digits(b) <= Digits(a))
    ensures Less(Pad(a.nano, 9), Pad(b.nano, 9))
  {
    assert Pow10(9) == 1000000000 by { assert Pow10(3) == 1000 && Pow10(6) == 1000000; }
    PadOrder(a.nano, b.nano, 9);
    var pa, pb := Pad(a.nano, 9), Pad(b.nano, 9);
    PadDigits(a.nano, 9);
    TrimmedCutsZeros(pb);
    SharedDigits(Digits(b), pa, pb);
    PrefixOfPrefix(Digits(b), Digits(a), pa);
  }

  lemma PrefixOfPrefix(x: string, y: string, z: string)
    ensures x <= y && y <= z ==> x <= z
  {
    if x <= y && y <= z {
      assert x == y[..|x|] == z[..|x|];
    }
  }

  lemma SharedDigits(d: string, s: string, z: string)
    requires |s| == |z| && d <= z && Zeros(z[|d|..]) && forall i :: 0 <= i < |s| ==> '0' <= s[i]
    ensures d <= s ==> !Less(s, z)
  {
    if d <= s {
      assert z == d + z[|d|..] && s == d + s[|d|..];
      CommonPrefix(d, s[|d|..], z[|d|..]);
      ZerosLeast(z[|d|..], s[|d|..]);
    }
  }

  lemma TailDigits(t: Instant)
    requires Proper(t)
    ensures t.nano == 0 <==> Digits(t) == ""
    ensures Digits(t) != "" ==> '0' <= Digits(t)[0] <= '9'
  {
    assert Pow10(9) == 1000000000 by { assert Pow10(3) == 1000 && Pow10(6) == 1000000; }
    PadDigits(t.nano, 9);
    TrimmedCutsZeros(Pad(t.nano, 9));
    if t.nano != 0 {
      LaterIsNoPrefix(t.(nano := 0), t);
    } else {
      ZeroDigits();
    }
  }

  lemma ZeroDigits()
    ensures Trimmed(Pad(0, 9)) == ""
  {
    ZeroPad(9);
    AllZerosTrimmed(Pad(0, 9));
  }

  lemma {:induction false} ZeroPad(w: nat)
    ensures Zeros(Pad(0, w))
  {
    if w > 0 {
      ZeroPad(w - 1);
    }
  }

  lemma {:induction false} AllZerosTrimmed(s: string)
    requires Zeros(s)
    ensures Trimmed(s) == ""
    decreases |s|
  {
    if s != "" {
      AllZerosTrimmed(s[..|s| - 1]);
    }
  }

  /** Digits before "Z": a proper prefix comes last, otherwise the digits decide. */
  lemma DigitsThenZ(x: string, y: string)
    requires !(y <= x) && forall i :: 0 <= i < |y| ==> y[i] < 'Z'
    ensures x <= y ==> !Less(x + "Z", y + "Z")
    ensures !(x <= y) ==> (Less(x + "Z", y + "Z") <==> Less(x, y))
  {
    if x <= y {
      assert y == x + y[|x|..];
      assert y + "Z" == x + (y[|x|..] + "Z");
      CommonPrefix(x, "Z", y[|x|..] + "Z");
    } else {
      Trichotomy(x, y);
      Trichotomy(x + "Z", y + "Z");
      if Less(x, y) {
        DecidedEarly(x, y, "Z", "Z");
      } else {
        DecidedEarly(y, x, "Z", "Z");
      }
    }
  }

  /** Within a second an earlier instant has the smaller text exactly when its digits are not a
      prefix of the later one's. */
  lemma WithinSecondInOrderIff(a: Instant, b: Instant)
    requires Proper(a) && Proper(b) && SameSecond(a, b) && a.nano < b.nano
    ensures Less(Text(a), Text(b)) <==> !(Digits(a) <= Digits(b))
  {
    TextBySecondThenTail(a, b);
    LaterIsNoPrefix(a, b);
    TailDigits(a);
    TailDigits(b);
    PadDigits(b.nano, 9);
    var x, y := Digits(a), Digits(b);
    assert Tail(b) == "." + (y + "Z");
    DigitsThenZ(x, y);
    if a.nano == 0 {
      assert Tail(a) == "Z";
    } else {
      assert Tail(a) == "." + (x + "Z");
      SeparatorSame('.', x + "Z", y + "Z");
      if !(x <= y) {
        TrimmedOrder(a, b);
      }
    }
  }

  lemma TrimmedOrder(a: Instant, b: Instant)
    requires Less(Pad(a.nano, 9), Pad(b.nano, 9)) && !(Digits(a) <= Digits(b)) && !(Digits(b) <= Digits(a))
    ensures Less(Digits(a), Digits(b))
  {
    var x, y := Digits(a), Digits(b);
    var pa, pb := Pad(a.nano, 9), Pad(b.nano, 9);
    Trichotomy(x, y);
    if Less(y, x) {
      DecidedEarly(y, x, pb[|y|..], pa[|x|..]);
      assert pa == x + pa[|x|..] && pb == y + pb[|y|..];
      Trichotomy(pa, pb);
    }
  }

  // ---- Expiry ----

  /** `expires_at > now` in SQL. */
  predicate SqlLive(now: Instant, expires: Instant)
  {
    Less(Text(now), Text(expires))
  }

  /** Both instants lie in one second, and the digits of one begin those of the other. */
  predicate Misread(a: Instant, b: Instant)
  {
    SameSecond(a, b) && a.nano != b.nano && (Digits(a) <= Digits(b) || Digits(b) <= Digits(a))
  }

  /** SQL's test and Go's `now.Before(expires)` agree, except within a second when the digits of
      one fraction begin those of the other; then they are opposite. */
  lemma ExpiryTestsAgreeIff(now: Instant, expires: Instant)
    requires Proper(now) && Proper(expires)
    ensures (SqlLive(now, expires) <==> Before(now, expires)) <==> !Misread(now, expires)
  {
    TextBySecondThenTail(now, expires);
    if SameSecond(now, expires) {
      if now.nano < expires.nano {
        WithinSecondInOrderIff(now, expires);
        LaterIsNoPrefix(now, expires);
      } else if expires.nano < now.nano {
        WithinSecondInOrderIff(expires, now);
        LaterIsNoPrefix(expires, now);
        Trichotomy(Text(now), Text(expires));
        TextsDiffer(expires, now);
      } else {
        Trichotomy(Tail(now), Tail(expires));
      }
    }
  }

  lemma TailShowsDigits(t: Instant)
    requires Proper(t)
    ensures Tail(t) != ""
    ensures Digits(t) == if |Tail(t)| == 1 then "" else Tail(t)[1..|Tail(t)| - 1]
  {
    TailDigits(t);
  }

  lemma TextsDiffer(a: Instant, b: Instant)
    requires Proper(a) && Proper(b) && SameSecond(a, b) && a.nano < b.nano
    ensures Text(a) != Text(b)
  {
    TextBySecondThenTail(a, b);
    TextBySecondThenTail(b, a);
    Trichotomy(Text(a), Text(b));
    LaterIsNoPrefix(a, b);
    TailShowsDigits(a);
    TailShowsDigits(b);
    Trichotomy(Tail(a), Tail(b));
  }

  /** A whole second and a half: the earlier instant has the greater text. */
  lemma HalfSecondIsMisread(t: Instant)
    requires Proper(t) && t.nano == 0
    ensures Before(t, t.(nano := 500000000)) && !SqlLive(t, t.(nano := 500000000))
  {
    ZeroDigits();
    WithinSecondInOrderIff(t, t.(nano := 500000000));
  }
}
