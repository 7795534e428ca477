/** Text handling applied to cell contents: Python's `str.strip()` with no
    argument, and `sep.join(parts)`. */
module Text {

  /** Python's `str.isspace()` for one character: the ASCII controls 9-13 and
      28-31, the space, and the Unicode separators Python treats as whitespace. */
  predicate IsSpace(c: char)
  {
    var n := c as int;
    (9 <= n <= 13) || (28 <= n <= 32) || n == 0x85 || n == 0xA0 || n == 0x1680
    || (0x2000 <= n <= 0x200A) || n == 0x2028 || n == 0x2029 || n == 0x202F
    || n == 0x205F || n == 0x3000
  }

  predicate AllSpace(s: string)
  {
    forall i :: 0 <= i < |s| ==> IsSpace(s[i])
  }

  /** Neither end of `s` is whitespace. */
  predicate Trimmed(s: string)
  {
    |s| == 0 || (!IsSpace(s[0]) && !IsSpace(s[|s| - 1]))
  }

  /** `s.lstrip()`. */
  function TrimLeft(s: string): string
    decreases |s|
  {
    if |s| > 0 && IsSpace(s[0]) then TrimLeft(s[1..]) else s
  }

  /** `s.rstrip()`. */
  function TrimRight(s: string): string
    decreases |s|
  {
    if |s| > 0 && IsSpace(s[|s| - 1]) then TrimRight(s[..|s| - 1]) else s
  }

  /** `lstrip` leaves a suffix that does not start with whitespace, and what it
      removes is whitespace. */
  lemma {:induction false} TrimLeftSpec(s: string)
    ensures var r := TrimLeft(s);
      && |r| <= |s| && r == s[|s| - |r|..]
      && AllSpace(s[..|s| - |r|])
      && (|r| == 0 || !IsSpace(r[0]))
    decreases |s|
  {
    if |s| > 0 && IsSpace(s[0]) {
      var q := s[1..];
      TrimLeftSpec(q);
      var k := |q| - |TrimLeft(q)|;
      assert s[..k + 1] == [s[0]] + q[..k];
    }
  }

  /** `rstrip` leaves a prefix that does not end with whitespace, and what it
      removes is whitespace. */
  lemma {:induction false} TrimRightSpec(s: string)
    ensures var r := TrimRight(s);
      && |r| <= |s| && r == s[..|r|]
      && AllSpace(s[|r|..])
      && (|r| == 0 || !IsSpace(r[|r| - 1]))
    decreases |s|
  {
    if |s| > 0 && IsSpace(s[|s| - 1]) {
      var p := s[..|s| - 1];
      TrimRightSpec(p);
      var k := |TrimRight(p)|;
      assert s[k..] == p[k..] + [s[|s| - 1]];
    }
  }

  /** `s.strip()`. */
  function Strip(s: string): (r: string)
    ensures |r| <= |s|
    ensures Trimmed(r)
  {
    TrimLeftSpec(s);
    TrimRightSpec(TrimLeft(s));
    TrimRight(TrimLeft(s))
  }

  /** Leading whitespace does not change what `lstrip` leaves. */
  lemma {:induction false} TrimLeftSkips(a: string, x: string)
    requires AllSpace(a)
    ensures TrimLeft(a + x) == TrimLeft(x)
    decreases |a|
  {
    if |a| > 0 {
      assert (a + x)[1..] == a[1..] + x;
      TrimLeftSkips(a[1..], x);
    } else {
      assert a + x == x;
    }
  }

  /** Trailing whitespace does not change what `rstrip` leaves. */
  lemma {:induction false} TrimRightSkips(x: string, b: string)
    requires AllSpace(b)
    ensures TrimRight(x + b) == TrimRight(x)
    decreases |b|
  {
    if |b| > 0 {
      assert (x + b)[..|x + b| - 1] == x + b[..|b| - 1];
      TrimRightSkips(x, b[..|b| - 1]);
    } else {
      assert x + b == x;
    }
  }

  /** Strip is characterised by its result: whatever whitespace surrounds a
      string with no whitespace at its ends, stripping gives that string back. */
  lemma {:induction false} StripUnique(a: string, m: string, b: string)
    requires AllSpace(a) && AllSpace(b) && Trimmed(m)
    ensures Strip(a + m + b) == m
  {
    assert a + m + b == a + (m + b);
    TrimLeftSkips(a, m + b);
    if |m| > 0 {
      assert TrimLeft(m + b) == m + b;
      TrimRightSkips(m, b);
    } else {
      assert m + b == b + "";
      TrimLeftSkips(b, "");
    }
  }

  /** `lstrip` removes a whitespace prefix and nothing else. */
  lemma LeftSplit(s: string) returns (a: string)
    ensures AllSpace(a) && s == a + TrimLeft(s)
  {
    TrimLeftSpec(s);
    var k := |s| - |TrimLeft(s)|;
    a := s[..k];
    assert s == s[..k] + s[k..];
  }

  /** `rstrip` removes a whitespace suffix and nothing else. */
  lemma RightSplit(s: string) returns (b: string)
    ensures AllSpace(b) && s == TrimRight(s) + b
  {
    var m := TrimRight(s);
    TrimRightSpec(s);
    b := s[|m|..];
    assert s == s[..|m|] + s[|m|..];
  }

  /** The other half of the characterisation: every string is its stripped form
      surrounded by whitespace. */
  lemma {:induction false} StripSplits(s: string) returns (a: string, b: string)
    ensures AllSpace(a) && AllSpace(b)
    ensures s == a + Strip(s) + b
  {
    a := LeftSplit(s);
    b := RightSplit(TrimLeft(s));
    assert a + (Strip(s) + b) == a + Strip(s) + b;
  }

  /** Stripping twice is stripping once. */
  lemma {:induction false} StripIdempotent(s: string)
    ensures Strip(Strip(s)) == Strip(s)
  {
    var m := Strip(s);
    assert "" + m + "" == m;
    StripUnique("", m, "");
  }

  /** `sep.join(parts)`. */
  function Join(parts: seq<string>, sep: string): string
    decreases |parts|
  {
    if |parts| == 0 then ""
    else if |parts| == 1 then parts[0]
    else parts[0] + sep + Join(parts[1..], sep)
  }

  /** Joining one more part adds the separator and that part at the end. */
  lemma {:induction false} JoinSnoc(parts: seq<string>, p: string, sep: string)
    requires |parts| > 0
    ensures Join(parts + [p], sep) == Join(parts, sep) + sep + p
    decreases |parts|
  {
    if |parts| == 1 {
      assert parts + [p] == [parts[0], p];
      assert [parts[0], p][1..] == [p];
    } else {
      assert (parts + [p])[1..] == parts[1..] + [p];
      JoinSnoc(parts[1..], p, sep);
    }
  }

  /** A join whose last part is non-empty ends with that part's last
      character. */
  lemma {:induction false} JoinLast(parts: seq<string>, sep: string)
    requires |parts| > 0 && |parts[|parts| - 1]| > 0
    ensures var j := Join(parts, sep); var p := parts[|parts| - 1];
      |j| > 0 && j[|j| - 1] == p[|p| - 1]
    decreases |parts|
  {
    if |parts| > 1 {
      JoinLast(parts[1..], sep);
    }
  }

  function TotalLength(parts: seq<string>): nat
    decreases |parts|
  {
    if |parts| == 0 then 0 else |parts[0]| + TotalLength(parts[1..])
  }

  /** The joined string holds every part plus one separator between each two. */
  lemma {:induction false} JoinLength(parts: seq<string>, sep: string)
    requires |parts| > 0
    ensures |Join(parts, sep)| == TotalLength(parts) + (|parts| - 1) * |sep|
    decreases |parts|
  {
    if |parts| > 1 {
      JoinLength(parts[1..], sep);
    }
  }
}
