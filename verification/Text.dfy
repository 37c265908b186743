/** Cutting strings at a separator. */
module Text {

  /** The parts of s around the first c; the second part is empty if there is no c. */
  datatype CutResult = CutResult(before: string, after: string, found: bool)

  function Cut(s: string, c: char): (r: CutResult)
    ensures c !in r.before
    ensures if r.found then s == r.before + [c] + r.after else s == r.before && r.after == ""
  {
    if s == "" then CutResult("", "", false)
    else if s[0] == c then CutResult("", s[1..], true)
    else
      var r := Cut(s[1..], c);
      assert s == [s[0]] + s[1..];
      CutResult([s[0]] + r.before, r.after, r.found)
  }

  /** A separator that does not occur in the first part cuts exactly there. */
  lemma {:induction false} CutAt(x: string, c: char, y: string)
    requires c !in x
    ensures Cut(x + [c] + y, c) == CutResult(x, y, true)
  {
    var s := x + [c] + y;
    if x == "" {
      assert s[1..] == y;
    } else {
      assert s[1..] == x[1..] + [c] + y;
      CutAt(x[1..], c, y);
      assert x == [x[0]] + x[1..];
    }
  }

  lemma {:induction false} CutNowhere(s: string, c: char)
    requires c !in s
    ensures Cut(s, c) == CutResult(s, "", false)
  {
    if s != "" {
      CutNowhere(s[1..], c);
      assert s == [s[0]] + s[1..];
    }
  }
}
