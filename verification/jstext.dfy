/** The two JavaScript string operations the pipeline relies on:
    `String.prototype.trim` (for the send guard) and
    `String.prototype.split` with a one-character separator (for the
    data-URL prefix strip). Strings are sequences of code points. */
module JsText {

  /** ECMAScript WhiteSpace and LineTerminator code points, the characters
      `trim` removes from both ends. */
  predicate IsWhiteSpace(c: char)
  {
    var n := c as int;
    || n == 0x09 || n == 0x0A || n == 0x0B || n == 0x0C || n == 0x0D
    || n == 0x20 || n == 0xA0 || n == 0x1680
    || (0x2000 <= n <= 0x200A)
    || n == 0x2028 || n == 0x2029 || n == 0x202F || n == 0x205F
    || n == 0x3000 || n == 0xFEFF
  }

  /** `s` with its leading white space removed. */
  function TrimStart(s: string): (r: string)
    ensures |r| <= |s| && r == s[|s| - |r|..]
    ensures r == [] || !IsWhiteSpace(r[0])
    ensures forall i :: 0 <= i < |s| - |r| ==> IsWhiteSpace(s[i])
    decreases |s|
  {
    if |s| > 0 && IsWhiteSpace(s[0]) then TrimStart(s[1..]) else s
  }

  /** `s` with its trailing white space removed. */
  function TrimEnd(s: string): (r: string)
    ensures |r| <= |s| && r == s[..|r|]
    ensures r == [] || !IsWhiteSpace(r[|r| - 1])
    ensures forall i :: |r| <= i < |s| ==> IsWhiteSpace(s[i])
    decreases |s|
  {
    if |s| > 0 && IsWhiteSpace(s[|s| - 1]) then TrimEnd(s[..|s| - 1]) else s
  }

  /** `s.trim()`: the longest infix of `s` that neither starts nor ends with
      white space, with everything cut away being white space. */
  function Trim(s: string): (r: string)
    ensures |r| <= |s|
    ensures r == [] || (!IsWhiteSpace(r[0]) && !IsWhiteSpace(r[|r| - 1]))
    ensures exists a, b :: 0 <= a <= b <= |s| && r == s[a..b] && IsBlank(s[..a]) && IsBlank(s[b..])
  {
    var t := TrimStart(s);
    var a := |s| - |t|;
    var r := TrimEnd(t);
    assert r == s[a..a + |r|];
    assert IsBlank(s[..a]);
    assert IsBlank(s[a + |r|..]);
    r
  }

  /** Every character is white space. */
  predicate IsBlank(s: string)
  {
    forall i :: 0 <= i < |s| ==> IsWhiteSpace(s[i])
  }

  /** `!s.trim()` (JavaScript treats the empty string as false) holds
      exactly for blank strings. */
  lemma {:induction false} TrimEmptyIffBlank(s: string)
    ensures Trim(s) == [] <==> IsBlank(s)
  {
    // Trimming the end cannot empty a string that starts with non-white
    // space, so a string that trims to "" already trims to "" from the start.
    if Trim(s) == [] {
      assert TrimStart(s) == [];
    }
  }

  /** `s.split([sep])`: the fields between occurrences of `sep`, in order.
      Like JavaScript, the empty string splits into one empty field. */
  function Split(s: string, sep: char): (fields: seq<string>)
    ensures |fields| >= 1
    ensures forall i :: 0 <= i < |fields| ==> sep !in fields[i]
    decreases |s|
  {
    if |s| == 0 then [""]
    else
      var rest := Split(s[1..], sep);
      if s[0] == sep then [""] + rest
      else [[s[0]] + rest[0]] + rest[1..]
  }

  /** `fields.join([sep])`. */
  function Join(fields: seq<string>, sep: char): string
    requires |fields| >= 1
    decreases |fields|
  {
    if |fields| == 1 then fields[0]
    else fields[0] + [sep] + Join(fields[1..], sep)
  }

  /** Prefixing the first field prefixes the join. */
  lemma JoinPrefixFirst(c: char, fields: seq<string>, sep: char)
    requires |fields| >= 1
    ensures Join([[c] + fields[0]] + fields[1..], sep) == [c] + Join(fields, sep)
  {
    var g := [[c] + fields[0]] + fields[1..];
    assert g[1..] == fields[1..];
    if |fields| > 1 {
      assert ([c] + fields[0]) + [sep] + Join(fields[1..], sep)
          == [c] + (fields[0] + [sep] + Join(fields[1..], sep));
    }
  }

  /** Joining the fields of a split restores the string. */
  lemma {:induction false} JoinSplit(s: string, sep: char)
    ensures Join(Split(s, sep), sep) == s
    decreases |s|
  {
    if |s| > 0 {
      var rest := Split(s[1..], sep);
      JoinSplit(s[1..], sep);
      assert s == [s[0]] + s[1..];
      if s[0] == sep {
        assert ([""] + rest)[1..] == rest;
      } else {
        JoinPrefixFirst(s[0], rest, sep);
      }
    }
  }

  /** A string without the separator is a single field. */
  lemma {:induction false} SplitWithoutSeparator(s: string, sep: char)
    requires sep !in s
    ensures Split(s, sep) == [s]
    decreases |s|
  {
    if |s| > 0 {
      SplitWithoutSeparator(s[1..], sep);
      assert s == [s[0]] + s[1..];
    }
  }

  /** A separator-free head joins the first field of what follows it. */
  lemma {:induction false} SplitAfterHead(h: string, t: string, sep: char)
    requires sep !in h
    ensures Split(h + t, sep) == [h + Split(t, sep)[0]] + Split(t, sep)[1..]
    decreases |h|
  {
    if |h| > 0 {
      SplitAfterHead(h[1..], t, sep);
      assert (h + t)[1..] == h[1..] + t;
      assert [h[0]] + (h[1..] + Split(t, sep)[0]) == h + Split(t, sep)[0];
    } else {
      var f := Split(t, sep);
      assert h + t == t;
      assert h + f[0] == f[0];
      assert [f[0]] + f[1..] == f;
    }
  }

  /** Splitting a join of separator-free fields gives back the fields. */
  lemma {:induction false} SplitJoin(fields: seq<string>, sep: char)
    requires |fields| >= 1
    requires forall i :: 0 <= i < |fields| ==> sep !in fields[i]
    ensures Split(Join(fields, sep), sep) == fields
    decreases |fields|
  {
    if |fields| == 1 {
      SplitWithoutSeparator(fields[0], sep);
    } else {
      var tail := Join(fields[1..], sep);
      SplitJoin(fields[1..], sep);
      SplitAfterHead(fields[0], [sep] + tail, sep);
      assert ([sep] + tail)[1..] == tail;
      assert Split([sep] + tail, sep) == [""] + fields[1..];
      assert fields[0] + [sep] + tail == fields[0] + ([sep] + tail);
      assert fields[0] + "" == fields[0];
      assert fields == [fields[0]] + fields[1..];
    }
  }

  /** When a string splits into several fields, the second one sits right
      after the first separator and runs up to the next one or the end. */
  lemma SecondFieldPosition(s: string, sep: char)
    requires |Split(s, sep)| > 1
    ensures var f := Split(s, sep); var k := |f[0]|;
            && k + 1 + |f[1]| <= |s| && s[k] == sep && s[..k] == f[0]
            && s[k + 1 .. k + 1 + |f[1]|] == f[1]
            && (k + 1 + |f[1]| == |s| || s[k + 1 + |f[1]|] == sep)
  {
    var f := Split(s, sep);
    JoinSplit(s, sep);
    var rest := Join(f[1..], sep);
    assert s == f[0] + [sep] + rest;
    var tail := if |f| == 2 then "" else [sep] + Join(f[2..], sep);
    assert f[1..][0] == f[1];
    if |f| > 2 {
      assert f[1..][1..] == f[2..];
    }
    assert rest == f[1] + tail;
    assert s == f[0] + [sep] + f[1] + tail;
  }
}
