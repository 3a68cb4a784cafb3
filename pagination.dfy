/** The pager (components/SearchNotes/Pagination.tsx): two buttons, disabled on the first
    and on the last page, and the label between them. */
module Pagination {
  import opened Wrappers
  import opened Text

  predicate PrevDisabled(currentPage: int) {
    currentPage == 1
  }

  predicate NextDisabled(currentPage: int, totalPages: int) {
    currentPage == totalPages
  }

  datatype Button = PrevButton | NextButton

  /** A click reaches its handler (`onPrev` or `onNext`) exactly when the button is enabled. */
  predicate HandlerInvoked(b: Button, currentPage: int, totalPages: int) {
    match b
    case PrevButton => !PrevDisabled(currentPage)
    case NextButton => !NextDisabled(currentPage, totalPages)
  }

  /** `onPrev` never runs on page 1 and `onNext` never runs on the last page. */
  lemma NoHandlerAtTheEnds(currentPage: int, totalPages: int)
    ensures currentPage == 1 ==> !HandlerInvoked(PrevButton, currentPage, totalPages)
    ensures currentPage == totalPages ==> !HandlerInvoked(NextButton, currentPage, totalPages)
  {
  }

  /** With two pages or more, at least one button is enabled. */
  lemma AtMostOneDisabled(currentPage: int, totalPages: int)
    requires totalPages >= 2
    ensures !(PrevDisabled(currentPage) && NextDisabled(currentPage, totalPages))
  {
  }

  const LabelStart := "第 "
  const LabelMiddle := " 頁 / 共 "
  const LabelEnd := " 頁"

  /** `第 {currentPage} 頁 / 共 {totalPages} 頁`: the label shows exactly the current page and
      the page count, since both can be read back out of it. */
  function Label(currentPage: nat, totalPages: nat): (s: string)
    ensures ParseLabel(s) == Some((currentPage, totalPages))
  {
    assert LabelMiddle[0] == ' ' && LabelEnd[0] == ' ';
    ParseLayoutOfLayout(LabelStart, LabelMiddle, LabelEnd, currentPage, totalPages);
    Layout(LabelStart, LabelMiddle, LabelEnd, currentPage, totalPages)
  }

  /** Two numbers after `start`, between `middle`, before `end`. */
  function Layout(start: string, middle: string, end: string, m: nat, n: nat): string {
    start + NatToString(m) + middle + NatToString(n) + end
  }

  /** Reads the two page numbers back out of a label. */
  function ParseLabel(s: string): Option<(nat, nat)> {
    ParseLayout(LabelStart, LabelMiddle, LabelEnd, s)
  }

  /** Reads the two numbers back out of a `Layout`; None when `s` is not one. */
  function ParseLayout(start: string, middle: string, end: string, s: string): Option<(nat, nat)> {
    if !(start <= s) then None
    else
      var (d1, r1) := SplitDigits(s[|start|..]);
      if d1 == [] || !(middle <= r1) then None
      else
        var (d2, r2) := SplitDigits(r1[|middle|..]);
        if d2 == [] || r2 != end then None
        else Some((DigitsValue(d1), DigitsValue(d2)))
  }

  /** Two numbers laid out between separators that do not start with a digit are read back. */
  lemma ParseLayoutOfLayout(start: string, middle: string, end: string, m: nat, n: nat)
    requires middle != [] && !IsDigit(middle[0]) && (end == [] || !IsDigit(end[0]))
    ensures ParseLayout(start, middle, end, Layout(start, middle, end, m, n)) == Some((m, n))
  {
    var c, t := NatToString(m), NatToString(n);
    var s := Layout(start, middle, end, m, n);
    var r2 := t + end;
    var r1 := middle + r2;
    assert s == start + (c + r1);
    assert start <= s && s[|start|..] == c + r1;
    SplitDigitsOf(c, r1);
    assert middle <= r1 && r1[|middle|..] == r2;
    SplitDigitsOf(t, end);
    DigitsValueOfNatToString(m);
    DigitsValueOfNatToString(n);
  }
}
