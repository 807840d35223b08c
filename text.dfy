/** String primitives the processor relies on: Python's str.isspace, str.strip,
    str.split with a one-character separator, str.join and str.lower (for the
    comparison with "chunks"). Strings are sequences of Unicode scalar values.
    A Python str may also hold lone surrogates, but strict UTF-8 decoding of
    the file never produces them. */
module Text {

  /** The characters for which Python's str.isspace() holds; str.strip() with
      no argument removes exactly these from both ends. */
  predicate IsSpace(c: char) {
    var n := c as int;
    n == 0x20 || 0x09 <= n <= 0x0D || 0x1C <= n <= 0x1F || n == 0x85 || n == 0xA0
    || n == 0x1680 || 0x2000 <= n <= 0x200A || n == 0x2028 || n == 0x2029
    || n == 0x202F || n == 0x205F || n == 0x3000
  }

  predicate AllSpace(s: string) {
    forall i :: 0 <= i < |s| ==> IsSpace(s[i])
  }

  lemma AllSpaceAppend(a: string, b: string)
    ensures AllSpace(a + b) <==> AllSpace(a) && AllSpace(b)
  {
    if AllSpace(a + b) {
      forall i | 0 <= i < |a| ensures IsSpace(a[i]) {
        assert (a + b)[i] == a[i];
      }
      forall i | 0 <= i < |b| ensures IsSpace(b[i]) {
        assert (a + b)[|a| + i] == b[i];
      }
    }
    if AllSpace(a) && AllSpace(b) {
      forall i | 0 <= i < |a + b| ensures IsSpace((a + b)[i]) {
        if i >= |a| {
          assert (a + b)[i] == b[i - |a|];
        }
      }
    }
  }

  /** s without its leading whitespace (str.lstrip()). */
  function TrimStart(s: string): (r: string)
    ensures |r| <= |s| && r == s[|s| - |r|..]
    ensures AllSpace(s[..|s| - |r|])
    ensures r != [] ==> !IsSpace(r[0])
  {
    if s != [] && IsSpace(s[0]) then
      var r := TrimStart(s[1..]);
      var m := |s[1..]| - |r|;
      assert s[..1 + m] == [s[0]] + s[1..][..m];
      AllSpaceAppend([s[0]], s[1..][..m]);
      r
    else
      assert s[..0] == [];
      s
  }

  /** s without its trailing whitespace (str.rstrip()). */
  function TrimEnd(s: string): (r: string)
    ensures |r| <= |s| && r == s[..|r|]
    ensures AllSpace(s[|r|..])
    ensures r != [] ==> !IsSpace(r[|r| - 1])
  {
    if s != [] && IsSpace(s[|s| - 1]) then
      var r := TrimEnd(s[..|s| - 1]);
      assert s[|r|..] == s[..|s| - 1][|r|..] + [s[|s| - 1]];
      r
    else s
  }

  /** Python's str.strip(): the slice of s left after removing the whitespace
      at both ends. It is empty exactly when s is all whitespace. */
  function Strip(s: string): (r: string)
    ensures |r| <= |s|
    ensures r != [] ==> !IsSpace(r[0]) && !IsSpace(r[|r| - 1])
    ensures r == [] <==> AllSpace(s)
  {
    var t := TrimStart(s);
    var r := TrimEnd(t);
    StripEnds(s, |s| - |t|, t, r);
    r
  }

  lemma StripEnds(s: string, lead: nat, t: string, r: string)
    requires lead <= |s| && t == s[lead..] && AllSpace(s[..lead])
    requires |r| <= |t| && r == t[..|r|] && AllSpace(t[|r|..])
    requires t != [] ==> !IsSpace(t[0])
    ensures r != [] ==> !IsSpace(r[0])
    ensures r == [] <==> AllSpace(s)
  {
    if r == [] {
      assert t[|r|..] == t;
      assert s == s[..lead] + t;
      AllSpaceAppend(s[..lead], t);
    } else {
      assert s[lead] == t[0] == r[0];
    }
  }

  function StripLead(s: string): nat
  {
    |s| - |TrimStart(s)|
  }

  /** Strip keeps one contiguous slice of s, starting after the leading
      whitespace. */
  lemma StripIsSlice(s: string)
    ensures StripLead(s) + |Strip(s)| <= |s|
    ensures Strip(s) == s[StripLead(s)..StripLead(s) + |Strip(s)|]
  {
    var t := TrimStart(s);
    var lead := |s| - |t|;
    var r := TrimEnd(t);
    assert StripLead(s) == lead && Strip(s) == r;
    assert r == s[lead..lead + |r|] by {
      assert t == s[lead..] && r == t[..|r|];
      assert s[lead..][..|r|] == s[lead..lead + |r|];
    }
  }

  /** What Strip removes on either side of that slice is whitespace only. */
  lemma StripRemovesOnlySpace(s: string)
    ensures StripLead(s) + |Strip(s)| <= |s|
    ensures AllSpace(s[..StripLead(s)]) && AllSpace(s[StripLead(s) + |Strip(s)|..])
  {
    var t := TrimStart(s);
    var lead := |s| - |t|;
    var r := TrimEnd(t);
    assert StripLead(s) == lead && Strip(s) == r;
    assert AllSpace(s[lead + |r|..]) by {
      assert t == s[lead..] && AllSpace(t[|r|..]);
      assert s[lead + |r|..] == t[|r|..];
    }
  }

  /** A whitespace-ending string loses at least its last character to Strip. */
  lemma StripDropsTrailingSpace(s: string)
    requires s != [] && IsSpace(s[|s| - 1])
    ensures |Strip(s)| < |s|
  {
    StripIsSlice(s);
  }

  lemma TrimStartAppend(s: string, t: string)
    requires !AllSpace(s)
    ensures TrimStart(s + t) == TrimStart(s) + t
    decreases |s|
  {
    if IsSpace(s[0]) {
      assert (s + t)[1..] == s[1..] + t;
      assert s == [s[0]] + s[1..];
      AllSpaceAppend([s[0]], s[1..]);
      TrimStartAppend(s[1..], t);
    }
  }

  lemma {:induction false} TrimEndAppendSpace(u: string, t: string)
    requires AllSpace(t)
    ensures TrimEnd(u + t) == TrimEnd(u)
    decreases |t|
  {
    if t != [] {
      var t' := t[..|t| - 1];
      assert (u + t)[..|u + t| - 1] == u + t';
      assert (u + t)[|u + t| - 1] == t[|t| - 1];
      TrimEndAppendSpace(u, t');
    } else {
      assert u + t == u;
    }
  }

  /** Trailing whitespace never changes what Strip returns. */
  lemma StripIgnoresTrailingSpace(s: string, t: string)
    requires AllSpace(t)
    ensures Strip(s + t) == Strip(s)
  {
    AllSpaceAppend(s, t);
    if !AllSpace(s) {
      TrimStartAppend(s, t);
      TrimEndAppendSpace(TrimStart(s), t);
    }
  }

  /** The sum of the lengths of the parts. */
  function TotalLength(parts: seq<string>): nat
  {
    if parts == [] then 0 else |parts[0]| + TotalLength(parts[1..])
  }

  /** Python's sep.join(parts): every part once, in order, with one separator
      between neighbours. */
  function Join(parts: seq<string>, sep: string): (r: string)
    ensures |parts| == 0 ==> r == ""
    ensures |parts| >= 1 ==> |r| == TotalLength(parts) + (|parts| - 1) * |sep| && r[..|parts[0]|] == parts[0]
  {
    if |parts| == 0 then ""
    else if |parts| == 1 then parts[0]
    else parts[0] + sep + Join(parts[1..], sep)
  }

  /** Joining one more piece appends the separator and the piece. */
  lemma {:induction false} JoinSnoc(parts: seq<string>, p: string, sep: string)
    requires |parts| >= 1
    ensures Join(parts + [p], sep) == Join(parts, sep) + sep + p
  {
    if |parts| == 1 {
      assert (parts + [p])[1..] == [p];
    } else {
      assert (parts + [p])[1..] == parts[1..] + [p];
      JoinSnoc(parts[1..], p, sep);
    }
  }

  /** The position of the first occurrence of c in s (str.index). */
  function IndexOf(s: string, c: char): (k: nat)
    requires c in s
    ensures k < |s| && s[k] == c && c !in s[..k]
  {
    if s[0] == c then 0
    else
      var k := 1 + IndexOf(s[1..], c);
      assert s[..k] == [s[0]] + s[1..][..k - 1];
      k
  }

  /** Python's s.split(sep) for a one-character separator: the maximal
      separator-free pieces, at least one of them, which join back to s. */
  function Split(s: string, sep: char): (parts: seq<string>)
    ensures |parts| >= 1
    ensures forall k :: 0 <= k < |parts| ==> sep !in parts[k]
    ensures Join(parts, [sep]) == s
    decreases |s|
  {
    if sep !in s then [s]
    else
      var k := IndexOf(s, sep);
      var rest := Split(s[k + 1..], sep);
      var parts := [s[..k]] + rest;
      assert parts[1..] == rest;
      assert s == s[..k] + [sep] + s[k + 1..];
      parts
  }

  /** A separator-free piece followed by the separator splits off as the first piece. */
  lemma SplitCons(p: string, sep: char, tail: string)
    requires sep !in p
    ensures Split(p + [sep] + tail, sep) == [p] + Split(tail, sep)
  {
    var s := p + [sep] + tail;
    assert s[|p|] == sep;
    var k := IndexOf(s, sep);
    assert s[..|p|] == p;
    assert k == |p|;
    assert s[..k] == p;
    assert s[k + 1..] == tail;
  }

  /** Splitting undoes joining, for pieces without the separator. */
  lemma {:induction false} SplitJoin(parts: seq<string>, sep: char)
    requires |parts| >= 1
    requires forall k :: 0 <= k < |parts| ==> sep !in parts[k]
    ensures Split(Join(parts, [sep]), sep) == parts
  {
    if |parts| > 1 {
      assert Join(parts, [sep]) == parts[0] + [sep] + Join(parts[1..], [sep]);
      SplitCons(parts[0], sep, Join(parts[1..], [sep]));
      SplitJoin(parts[1..], sep);
      assert parts == [parts[0]] + parts[1..];
    }
  }

  /** Python's str.lower() on one character, for the part of Unicode that can
      lower-case into an ASCII letter: A-Z, and the Kelvin sign, which lowers
      to 'k'. Every other character is left as it is. */
  function LowerChar(c: char): char
  {
    if 'A' <= c <= 'Z' then (c as int + 32) as char
    else if c == '\U{212A}' then 'k'
    else c
  }

  function Lower(s: string): (r: string)
    ensures |r| == |s|
  {
    seq(|s|, i requires 0 <= i < |s| => LowerChar(s[i]))
  }
}
