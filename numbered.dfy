/** The numbered category list of the legacy prompt (server.js, line 56):
    `categories.map((c, i) => `${i + 1}. ${c}`).join("\n")`. */
module NumberedList {
  import opened Strings
  import opened JsValues

  /** Line `i` (counting from 0) names category `c` under the number i + 1. */
  /** A line holds a line break exactly when the category's text does. */
  function Line(i: nat, c: JsValue): (l: string)
    ensures '\n' in l <==> '\n' in Text(c)
  {
    Decimal(i + 1) + ". " + Text(c)
  }

  function Lines(categories: seq<JsValue>): (ls: seq<string>) {
    seq(|categories|, i requires 0 <= i < |categories| => Line(i, categories[i]))
  }

  /** The list is empty exactly when there are no categories, and
      otherwise starts with "1. ". */
  function Render(categories: seq<JsValue>): (r: string)
    ensures r == [] <==> categories == []
    ensures categories != [] ==> StartsWith(r, "1. ")
  {
    var ls := Lines(categories);
    if ls == [] then Join(ls, "\n")
    else
      assert Decimal(1) == "1";
      assert StartsWith(Join(ls, "\n"), ls[0]);
      assert ls[0] == "1. " + Text(categories[0]);
      assert Join(ls, "\n")[..3] == ls[0][..3];
      Join(ls, "\n")
  }

  /** A line starts with the decimal number i + 1, then ". ", then the
      category's text. */
  lemma LineShape(i: nat, c: JsValue)
    ensures var l, k := Line(i, c), |Decimal(i + 1)|;
      k <= |l| - 2
      && (forall m :: 0 <= m < k ==> IsDigit(l[m]))
      && ParseDecimal(l[..k]) == i + 1
      && l[k..k + 2] == ". "
      && l[k + 2..] == Text(c)
  {
    var l, k := Line(i, c), |Decimal(i + 1)|;
    assert l[..k] == Decimal(i + 1);
    DecimalRoundTrip(i + 1);
    assert l[k..k + 2] == ". ";
    assert l[k + 2..] == Text(c);
  }

  /** When no category's text contains a line break, splitting the list at
      line breaks gives one line per category, in input order. */
  lemma OneLinePerCategory(categories: seq<JsValue>)
    requires |categories| >= 1
    requires forall i :: 0 <= i < |categories| ==> '\n' !in Text(categories[i])
    ensures Split(Render(categories), '\n') == Lines(categories)
    ensures |Split(Render(categories), '\n')| == |categories|
  {
    var ls := Lines(categories);
    SplitJoin(ls, '\n');
  }

  /** A single category is one line with no separator; each further
      category adds a line break and its own line at the end. */
  lemma RenderAppend(categories: seq<JsValue>, c: JsValue)
    ensures Render([c]) == Line(0, c)
    ensures |categories| >= 1 ==> Render(categories + [c]) == Render(categories) + "\n" + Line(|categories|, c)
  {
    assert Lines([c]) == [Line(0, c)];
    if |categories| >= 1 {
      assert Lines(categories + [c]) == Lines(categories) + [Line(|categories|, c)];
      JoinSnoc(Lines(categories), Line(|categories|, c), "\n");
    }
  }
}
