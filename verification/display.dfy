/** How the rate map's popup shows a number. */
module Display {
  import opened Wrappers

  /** A popup number: passed through the locale's thousands-separator
      formatting, shown as the bare number, or the text `undefined` for a
      property the feature does not carry. */
  datatype Shown = Grouped(n: int) | Plain(n: int) | Undefined

  /** The number a shown value stands for; formatting never changes it. */
  function ReadBack(s: Shown): Option<int> {
    match s
    case Grouped(n) => Some(n)
    case Plain(n) => Some(n)
    case Undefined => None
  }

  /** Only values strictly above 1000 get separators; 1000 itself, smaller
      values and a missing property (which compares false) are shown as they are. */
  function Show(v: Option<int>): (s: Shown)
    ensures s.Grouped? <==> v.Some? && v.value > 1000
    ensures ReadBack(s) == v
  {
    match v
    case Some(n) => if n > 1000 then Grouped(n) else Plain(n)
    case None => Undefined
  }

  /** The boundary: 1000 is shown unchanged and 1001 is grouped. */
  lemma ShowBoundary()
    ensures Show(Some(1000)) == Plain(1000) && Show(Some(1001)) == Grouped(1001)
    ensures Show(Some(734)) == Plain(734)
  {
  }
}
