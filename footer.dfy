/** `generateHeaderFooter` (epubserver.py:254-260): the navigation bar written above and below
    every page, with Previous, Back and Next links. */
module Footer {
  import opened Wrappers
  import opened Strings
  import opened Encoding
  import opened Routes

  /** The bar as the source accumulates it, for page `page` of a book with `count` pages. */
  function Footer(file: string, page: int, count: int, password: Option<string>): string
  {
    var previous := if page > 0 then "<a href=\"" + ReadRoute(file, page - 1, password) + "\">Previous</a> # " else "";
    var back := "<a href=\"" + BackRoute(password) + "\">Back</a>";
    var next := if page < count - 1 then " # <a href=\"" + ReadRoute(file, page + 1, password) + "\">Next</a>" else "";
    "<div class=\"elem\">" + previous + back + next + "</div>"
  }

  /** One navigation control, with the page it leads to. */
  datatype Control = Previous(target: int) | Back | Next(target: int)

  /** The controls the bar shows, in order: Previous on every page after the first, Back
      always, Next on every page before the last. */
  function Controls(page: int, count: int): seq<Control>
  {
    (if page > 0 then [Previous(page - 1)] else []) + [Back] + (if page < count - 1 then [Next(page + 1)] else [])
  }

  /** The link written for a control. */
  function Link(file: string, password: Option<string>, c: Control): string
  {
    match c
    case Previous(p) => "<a href=\"" + ReadRoute(file, p, password) + "\">Previous</a>"
    case Back => "<a href=\"" + BackRoute(password) + "\">Back</a>"
    case Next(p) => "<a href=\"" + ReadRoute(file, p, password) + "\">Next</a>"
  }

  function Links(file: string, password: Option<string>, cs: seq<Control>): (r: seq<string>)
    ensures |r| == |cs|
    ensures forall k :: 0 <= k < |cs| ==> r[k] == Link(file, password, cs[k])
  {
    seq(|cs|, k requires 0 <= k < |cs| => Link(file, password, cs[k]))
  }

  /** The bar is the links of its controls separated by ` # `, inside one `elem` block. */
  lemma FooterIsJoinedControls(file: string, page: int, count: int, password: Option<string>)
    ensures Footer(file, page, count, password)
            == "<div class=\"elem\">" + Join(Links(file, password, Controls(page, count)), " # ") + "</div>"
  {
    var p := Link(file, password, Previous(page - 1));
    var back := Link(file, password, Back);
    var n := Link(file, password, Next(page + 1));
    PreviousThenSeparator(file, page - 1, password);
    SeparatorThenNext(file, page + 1, password);
    LinksOfControls(file, page, count, password);
    Assemble("<div class=\"elem\">", "</div>", p, back, n, " # ", page > 0, page < count - 1);
  }

  /** The Previous text the source writes is the Previous link and a separator. */
  lemma PreviousThenSeparator(file: string, target: int, password: Option<string>)
    ensures "<a href=\"" + ReadRoute(file, target, password) + "\">Previous</a> # "
            == Link(file, password, Previous(target)) + " # "
  {
    assert "\">Previous</a> # " == "\">Previous</a>" + " # ";
    Regroup("<a href=\"", ReadRoute(file, target, password), "\">Previous</a>", " # ");
  }

  /** The Next text the source writes is a separator and the Next link. */
  lemma SeparatorThenNext(file: string, target: int, password: Option<string>)
    ensures " # <a href=\"" + ReadRoute(file, target, password) + "\">Next</a>"
            == " # " + Link(file, password, Next(target))
  {
    assert " # <a href=\"" == " # " + "<a href=\"";
    Regroup(" # ", "<a href=\"", ReadRoute(file, target, password), "\">Next</a>");
  }

  /** The links of the controls, one per control present. */
  lemma LinksOfControls(file: string, page: int, count: int, password: Option<string>)
    ensures Links(file, password, Controls(page, count))
            == (if page > 0 then [Link(file, password, Previous(page - 1))] else [])
               + [Link(file, password, Back)]
               + (if page < count - 1 then [Link(file, password, Next(page + 1))] else [])
  {
  }

  /** Writing the separators next to the optional links is joining the links present. */
  lemma Assemble(d: string, e: string, p: string, back: string, n: string, sep: string, hasPrev: bool, hasNext: bool)
    ensures d + (if hasPrev then p + sep else "") + back + (if hasNext then sep + n else "") + e
            == d + Join((if hasPrev then [p] else []) + [back] + (if hasNext then [n] else []), sep) + e
  {
    var ls := (if hasPrev then [p] else []) + [back] + (if hasNext then [n] else []);
    if hasPrev && hasNext {
      assert ls[1..] == [back, n] && ls[1..][1..] == [n];
      assert Join(ls[1..][1..], sep) == n;
      assert Join(ls[1..], sep) == back + sep + n;
      assert Join(ls, sep) == p + sep + (back + sep + n);
    } else if hasPrev {
      assert ls[1..] == [back];
      assert Join(ls, sep) == p + sep + back;
    } else if hasNext {
      assert ls == [back, n] && ls[1..] == [n];
      assert Join(ls, sep) == back + sep + n;
    } else {
      assert ls == [back];
    }
  }

  /** Previous (to `page - 1`) appears exactly when `page > 0`, Next (to `page + 1`) exactly
      when `page < count - 1`, Back always, in the order Previous, Back, Next. */
  lemma ControlsShown(page: int, count: int)
    ensures Previous(page - 1) in Controls(page, count) <==> page > 0
    ensures Next(page + 1) in Controls(page, count) <==> page < count - 1
    ensures Back in Controls(page, count)
    ensures forall c :: c in Controls(page, count) ==> c == Previous(page - 1) || c == Back || c == Next(page + 1)
    ensures Controls(page, count)[0] == if page > 0 then Previous(page - 1) else Back
    ensures Controls(page, count)[|Controls(page, count)| - 1] == if page < count - 1 then Next(page + 1) else Back
  {
  }
}
