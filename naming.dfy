/** The rule split_pdf.js and change_order_pdf.js share for the base name of
    an uploaded file: everything before the last `.`, unless the name has no
    `.` or its last `.` is its first character. */
module Naming {
  import opened Text

  /** `lastIndexOf('.') > 0 ? name.substring(0, lastIndexOf('.')) : name`. */
  function BaseName(name: string): (r: string)
    ensures |r| <= |name| && r == name[..|r|]
  {
    var dot := LastIndexOf(name, '.');
    if dot > 0 then name[..dot] else name
  }

  /** What the base name means: either the name is the base name followed by
      an extension that starts with its only `.` (and the base name is not
      empty), or the name has no `.` after its first character and is kept
      whole. */
  lemma {:induction false} BaseNameSpec(name: string)
    ensures var r := BaseName(name);
      (|r| > 0 && |r| < |name| && name[|r|] == '.' && '.' !in name[|r| + 1..])
      || (r == name && (|name| == 0 || '.' !in name[1..]))
  {
    var dot := LastIndexOf(name, '.');
    var r := BaseName(name);
    if dot > 0 {
      assert r == name[..dot];
      assert forall i :: dot < i < |name| ==> name[i] != '.';
    } else if |name| > 0 {
      assert forall i :: 0 < i < |name| ==> name[i] != '.';
    }
  }
}
