/** The part of Go's `strings` package that the error rendering relies on:
    `strings.Join`, which concatenates the elements of a slice with a
    separator placed between consecutive elements. */
module GoStrings {

  /** Total length of all the parts, separators not included. */
  function SumLengths(parts: seq<string>): nat
  {
    if |parts| == 0 then 0 else |parts[0]| + SumLengths(parts[1..])
  }

  /** `strings.Join(parts, sep)`: an empty slice gives the empty string, a
      one-element slice gives that element, and otherwise `sep` stands
      between each pair of neighbours, with none before the first or after
      the last. */
  function Join(parts: seq<string>, sep: string): (r: string)
    ensures |parts| == 0 ==> r == ""
    ensures |parts| > 0 ==> |r| == SumLengths(parts) + |sep| * (|parts| - 1)
  {
    if |parts| == 0 then ""
    else if |parts| == 1 then parts[0]
    else parts[0] + sep + Join(parts[1..], sep)
  }

  /** Index in `Join(parts, sep)` at which part `i` begins: the parts before
      it, and one separator after each of them. */
  function Offset(parts: seq<string>, sep: string, i: nat): nat
    requires i <= |parts|
  {
    SumLengths(parts[..i]) + i * |sep|
  }

  lemma {:induction false} SumLengthsSnoc(parts: seq<string>, x: string)
    ensures SumLengths(parts + [x]) == SumLengths(parts) + |x|
  {
    if |parts| > 0 {
      assert (parts + [x])[1..] == parts[1..] + [x];
      SumLengthsSnoc(parts[1..], x);
    }
  }

  /** Joining one more part at the end adds a separator and that part. */
  lemma {:induction false} JoinSnoc(parts: seq<string>, x: string, sep: string)
    requires |parts| > 0
    ensures Join(parts + [x], sep) == Join(parts, sep) + sep + x
  {
    if |parts| > 1 {
      assert (parts + [x])[1..] == parts[1..] + [x];
      JoinSnoc(parts[1..], x, sep);
    }
  }

  /** The offset of the next part is one part and one separator further. */
  lemma OffsetNext(parts: seq<string>, sep: string, i: nat)
    requires i < |parts|
    ensures Offset(parts, sep, i + 1) == Offset(parts, sep, i) + |parts[i]| + |sep|
  {
    assert parts[..i + 1] == parts[..i] + [parts[i]];
    SumLengthsSnoc(parts[..i], parts[i]);
    assert (i + 1) * |sep| == i * |sep| + |sep|;
  }

  /** Offsets in `parts` are offsets in its tail moved past the first part
      and its separator. */
  lemma OffsetTail(parts: seq<string>, sep: string, i: nat)
    requires 0 < i <= |parts|
    ensures Offset(parts, sep, i) == |parts[0]| + |sep| + Offset(parts[1..], sep, i - 1)
  {
    var front := parts[..i];
    assert front[1..] == parts[1..][..i - 1];
    assert SumLengths(front) == |parts[0]| + SumLengths(parts[1..][..i - 1]);
    assert i * |sep| == |sep| + (i - 1) * |sep|;
  }

  /** Each part appears verbatim in the joined string at its offset, and the
      separator appears verbatim right after every part but the last. */
  lemma {:induction false} JoinAt(parts: seq<string>, sep: string, i: nat)
    requires i < |parts|
    ensures Offset(parts, sep, i) + |parts[i]| <= |Join(parts, sep)|
    ensures Join(parts, sep)[Offset(parts, sep, i)..Offset(parts, sep, i) + |parts[i]|] == parts[i]
    ensures i + 1 < |parts| ==>
              Offset(parts, sep, i) + |parts[i]| + |sep| <= |Join(parts, sep)|
              && Join(parts, sep)[Offset(parts, sep, i) + |parts[i]|..Offset(parts, sep, i) + |parts[i]| + |sep|] == sep
  {
    var j := Join(parts, sep);
    var o := Offset(parts, sep, i);
    var a := |parts[i]|;
    if i == 0 {
      assert parts[..0] == [];
      assert o == 0;
      if |parts| > 1 {
        assert j == parts[0] + sep + Join(parts[1..], sep);
        assert j[..a] == parts[0];
        assert j[a..a + |sep|] == sep;
      }
    } else {
      var rest := parts[1..];
      var jr := Join(rest, sep);
      var k := |parts[0]| + |sep|;
      JoinAt(rest, sep, i - 1);
      OffsetTail(parts, sep, i);
      var orr := Offset(rest, sep, i - 1);
      assert o == k + orr;
      assert rest[i - 1] == parts[i];
      assert j == parts[0] + sep + jr;
      assert j[k..] == jr;
      assert j[o..o + a] == jr[orr..orr + a];
      if i + 1 < |parts| {
        assert j[o + a..o + a + |sep|] == jr[orr + a..orr + a + |sep|];
      }
    }
  }

  /** The last part ends the joined string. */
  lemma JoinEnd(parts: seq<string>, sep: string)
    requires |parts| > 0
    ensures Offset(parts, sep, |parts| - 1) + |parts[|parts| - 1]| == |Join(parts, sep)|
  {
    var n := |parts|;
    OffsetNext(parts, sep, n - 1);
    assert parts[..n] == parts;
    assert n * |sep| == |sep| * (n - 1) + |sep|;
  }
}
