/**
 * The host side keeps only the device's own output lines: a line is kept when
 * it starts, after optional whitespace, with the tag `[DEVICE]`, and every
 * `[DEVICE]` tag in a kept line is removed together with the whitespace that
 * follows it, in one left-to-right pass over the line.
 */
module DeviceFilter {
  import opened Text

  const Tag: string := "[DEVICE]"

  /** The characters Python's `\s` matches in a `str` pattern (`str.isspace`). */
  predicate IsSpace(c: char) {
    || ('\t' <= c <= '\r')                   // tab, line feed, vertical tab, form feed, carriage return
    || ('\U{1c}' <= c <= '\U{1f}')           // file, group, record and unit separators
    || c == ' ' || c == '\U{85}' || c == '\U{a0}'
    || c == '\U{1680}' || ('\U{2000}' <= c <= '\U{200a}')
    || c == '\U{2028}' || c == '\U{2029}' || c == '\U{202f}' || c == '\U{205f}' || c == '\U{3000}'
  }

  /** Length of the longest whitespace prefix of `s` (what a greedy `\s*` consumes). */
  function SpaceRun(s: string): (n: nat)
    ensures n <= |s|
    ensures forall i :: 0 <= i < n ==> IsSpace(s[i])
    ensures n < |s| ==> !IsSpace(s[n])
  {
    if |s| > 0 && IsSpace(s[0]) then 1 + SpaceRun(s[1..]) else 0
  }

  /** `s` without its leading whitespace. */
  function DropSpaces(s: string): string {
    s[SpaceRun(s)..]
  }

  /** The line matches `^\s*\[DEVICE\]`. */
  predicate IsDeviceLine(line: string) {
    StartsWith(DropSpaces(line), Tag)
  }

  /**
   * `re.sub(r'\[DEVICE\]\s*', '', s)`: scanning `s` once, each occurrence of
   * the tag is dropped with the whitespace after it, and every other
   * character is kept.
   */
  function Strip(s: string): (r: string)
    ensures |r| <= |s|
    decreases |s|
  {
    if |s| == 0 then ""
    else if StartsWith(s, Tag) then Strip(DropSpaces(s[|Tag|..]))
    else [s[0]] + Strip(s[1..])
  }

  /** The loop over the target's output: keep the device lines, stripped. */
  function FilterDeviceLines(lines: seq<string>): (r: seq<string>)
    ensures |r| <= |lines|
  {
    if |lines| == 0 then []
    else (if IsDeviceLine(lines[0]) then [Strip(lines[0])] else []) + FilterDeviceLines(lines[1..])
  }

  /** The kept lines are exactly the stripped device lines. */
  lemma {:induction false} FilterContents(lines: seq<string>, x: string)
    ensures x in FilterDeviceLines(lines) <==>
      exists j :: 0 <= j < |lines| && IsDeviceLine(lines[j]) && x == Strip(lines[j])
    decreases |lines|
  {
    if |lines| > 0 {
      FilterContents(lines[1..], x);
      assert forall j :: 0 <= j < |lines| - 1 ==> lines[1..][j] == lines[j + 1];
      if x in FilterDeviceLines(lines[1..]) {
        var j :| 0 <= j < |lines| - 1 && IsDeviceLine(lines[1..][j]) && x == Strip(lines[1..][j]);
        assert IsDeviceLine(lines[j + 1]) && x == Strip(lines[j + 1]);
      }
      if exists j :: 0 <= j < |lines| && IsDeviceLine(lines[j]) && x == Strip(lines[j]) {
        var j :| 0 <= j < |lines| && IsDeviceLine(lines[j]) && x == Strip(lines[j]);
        if j > 0 {
          assert IsDeviceLine(lines[1..][j - 1]) && x == Strip(lines[1..][j - 1]);
        }
      }
    }
  }

  /** Filtering distributes over concatenation, so line order is kept. */
  lemma {:induction false} FilterAppend(a: seq<string>, b: seq<string>)
    ensures FilterDeviceLines(a + b) == FilterDeviceLines(a) + FilterDeviceLines(b)
    decreases |a|
  {
    if |a| == 0 {
      assert a + b == b;
    } else {
      var kept := if IsDeviceLine(a[0]) then [Strip(a[0])] else [];
      assert (a + b)[0] == a[0] && (a + b)[1..] == a[1..] + b;
      assert FilterDeviceLines(a + b) == kept + FilterDeviceLines(a[1..] + b);
      FilterAppend(a[1..], b);
      assert kept + (FilterDeviceLines(a[1..]) + FilterDeviceLines(b)) ==
        (kept + FilterDeviceLines(a[1..])) + FilterDeviceLines(b);
    }
  }

  /** A line is left as it is exactly when it holds no tag; otherwise it shrinks. */
  lemma {:induction false} StripUnchanged(s: string)
    ensures Strip(s) == s <==> !Contains(s, Tag)
    ensures Contains(s, Tag) ==> |Strip(s)| < |s|
    decreases |s|
  {
    if |s| > 0 && !StartsWith(s, Tag) {
      StripUnchanged(s[1..]);
      if Strip(s) == s {
        assert Strip(s[1..]) == s[1..];
      }
    }
  }

  /** Characters before the first `[` are copied through untouched. */
  lemma {:induction false} StripPlainPrefix(w: string, x: string)
    requires forall i :: 0 <= i < |w| ==> w[i] != '['
    ensures Strip(w + x) == w + Strip(x)
    decreases |w|
  {
    if |w| == 0 {
      assert w + x == x;
    } else {
      var y := w + x;
      assert y[0] == w[0] && y[1..] == w[1..] + x;
      KeepFirst(y);
      StripPlainPrefix(w[1..], x);
      Regroup(w, Strip(x));
    }
  }

  /** No tag starts at a character other than `[`, so that character is kept. */
  lemma KeepFirst(s: string)
    requires |s| > 0 && s[0] != '['
    ensures Strip(s) == [s[0]] + Strip(s[1..])
  {
    if |Tag| <= |s| {
      assert s[..|Tag|][0] == s[0];
    }
  }

  /** Only the first character of the tag is `[`, and none of it is whitespace. */
  lemma TagChars()
    ensures Tag[0] == '['
    ensures forall i :: 1 <= i < |Tag| ==> Tag[i] != '['
    ensures forall i :: 0 <= i < |Tag| ==> !IsSpace(Tag[i])
  {
    assert Tag == ['[', 'D', 'E', 'V', 'I', 'C', 'E', ']'];
  }

  /**
   * A kept line keeps its leading whitespace; the tag it starts with and the
   * whitespace after that tag are removed, and the rest is stripped alike.
   */
  lemma DeviceLineStrip(line: string)
    requires IsDeviceLine(line)
    ensures
      var n := SpaceRun(line);
      Strip(line) == line[..n] + Strip(DropSpaces(line[n + |Tag|..]))
  {
    var n := SpaceRun(line);
    assert line == line[..n] + line[n..];
    StripPlainPrefix(line[..n], line[n..]);
    assert line[n..][|Tag|..] == line[n + |Tag|..];
  }

  /**
   * One pass only: a tag cut in two around a whole tag, `p + Tag + q` with
   * `p + q == Tag`, loses the inner tag and leaves a tag behind; for example
   * `[DEV[DEVICE]ICE]` becomes `[DEVICE]`.
   */
  lemma {:induction false} SinglePass(p: string, q: string)
    requires p + q == Tag && 0 < |p| < |Tag|
    ensures Strip(p + Tag + q) == Tag
  {
    var s := p + (Tag + q);
    assert p + Tag + q == s;
    assert !StartsWith(s, Tag) by {
      assert s[..|Tag|][|p|] == '[' != Tag[|p|];
    }
    TagChars();
    assert s[1..] == p[1..] + (Tag + q);
    assert forall i :: 0 <= i < |p| - 1 ==> p[1..][i] == Tag[i + 1] != '[';
    StripPlainPrefix(p[1..], Tag + q);
    TagThenRest(p, q);
    assert Strip(s) == [s[0]] + Strip(s[1..]);
    Regroup(p, q);
  }

  /** The rest `q` of a cut tag has no `[` and no leading space, so a tag before it leaves exactly `q`. */
  lemma TagThenRest(p: string, q: string)
    requires p + q == Tag && 0 < |p|
    ensures Strip(Tag + q) == q
  {
    TagChars();
    assert forall i :: 0 <= i < |q| ==> q[i] == (p + q)[|p| + i] == Tag[|p| + i];
    assert forall i :: 0 <= i < |q| ==> q[i] != '[';
    assert (Tag + q)[..|Tag|] == Tag && (Tag + q)[|Tag|..] == q;
    assert |q| > 0 ==> !IsSpace(q[0]);
    assert DropSpaces(q) == q;
    StripPlainPrefix(q, "");
    assert q + "" == q;
  }

  /** Putting the first character back in front. */
  lemma Regroup(p: string, q: string)
    requires |p| > 0
    ensures [p[0]] + (p[1..] + q) == p + q
  {
    assert [p[0]] + p[1..] == p;
  }
}
