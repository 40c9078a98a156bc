/** The bounded retry loops of the page interaction layer of `Site`:
    element lookup (`find`, `finds`), polling the page source for a text
    (`page_contains_text`), reading the options of a drop-down
    (`list_options`) and typing key sequences (`send_keys`).
    The browser is an oracle: one recorded answer per attempt. Sleeps are
    counted, not timed. */
module Retry {
  import opened Base
  import opened Text

  /** The retry count used when the argument is falsy (`None` or 0). */
  const DefaultRetries := 10

  /** `retries if retries else 10`, with 0 standing for both falsy arguments. */
  function Effective(retries: int): int
  {
    if retries == 0 then DefaultRetries else retries
  }

  /** Lookups made at most by `find` and `finds`: `range(1, n)` holds n - 1 values, none when n <= 1. */
  function FindAttempts(retries: int): nat
  {
    if Effective(retries) > 1 then Effective(retries) - 1 else 0
  }

  /** Checks made at most by `page_contains_text`: `range(n)` holds n values, none when n <= 0. */
  function PageAttempts(retries: int): nat
  {
    if Effective(retries) > 0 then Effective(retries) else 0
  }

  /** A DOM element as the model needs it: its tag, its text and the texts of its options. */
  datatype Element = Element(tag: string, text: string, options: seq<string>)

  /** What one call of `find_element_by_css_selector` gave: an element, a falsy value, or an exception. */
  datatype Lookup = Present(element: Element) | Absent | Raises

  /** What `find` returns: the element, the element wrapped in `Select` when its tag is `select`, or `False`. */
  datatype Found = Plain(element: Element) | Dropdown(element: Element) | NotFound

  function Wrap(e: Element): Found
  {
    if e.tag == "select" then Dropdown(e) else Plain(e)
  }

  /** What `find` makes of one answer that ends its loop (an absent answer ends nothing). */
  function Answer(l: Lookup): Result<Found>
  {
    match l
    case Present(e) => Ok(Wrap(e))
    case Absent => Ok(NotFound)
    case Raises => Err(DriverError)
  }

  /** `find` from attempt `k` of `n` on. */
  function FindFrom(lookups: seq<Lookup>, k: nat, n: nat): Result<Found>
    requires k <= n <= |lookups|
    decreases n - k
  {
    if k == n then Ok(NotFound)
    else if lookups[k].Absent? then FindFrom(lookups, k + 1, n)
    else Answer(lookups[k])
  }

  /** The value `find` returns (or the exception it lets through) given the answers to its lookups. */
  function FindSpec(lookups: seq<Lookup>, retries: int): Result<Found>
    requires FindAttempts(retries) <= |lookups|
  {
    FindFrom(lookups, 0, FindAttempts(retries))
  }

  /** The only exception `find` lets through is the one a lookup raised. */
  lemma {:induction false} FindRaisesDriverError(lookups: seq<Lookup>, k: nat, n: nat)
    requires k <= n <= |lookups|
    ensures FindFrom(lookups, k, n).Err? ==> FindFrom(lookups, k, n).error == DriverError
    decreases n - k
  {
    if k < n && lookups[k].Absent? {
      FindRaisesDriverError(lookups, k + 1, n);
    }
  }

  /** `find` gives `False` exactly when every lookup came back empty, and
      otherwise what the first non-empty answer says. */
  lemma {:induction false} FindFromFirstAnswer(lookups: seq<Lookup>, k: nat, n: nat)
    requires k <= n <= |lookups|
    ensures FindFrom(lookups, k, n) == Ok(NotFound) <==> forall j :: k <= j < n ==> lookups[j].Absent?
    ensures forall j :: k <= j < n && !lookups[j].Absent? && (forall i :: k <= i < j ==> lookups[i].Absent?) ==>
      FindFrom(lookups, k, n) == Answer(lookups[j])
    decreases n - k
  {
    if k < n {
      FindFromFirstAnswer(lookups, k + 1, n);
      if lookups[k].Present? {
        assert Answer(lookups[k]) != Ok(NotFound);
      }
    }
  }

  /** `Site.find`: at most `retries - 1` lookups, a sleep after each empty one. */
  method Find(lookups: seq<Lookup>, retries: int) returns (r: Result<Found>, calls: nat, sleeps: nat)
    requires FindAttempts(retries) <= |lookups|
    ensures sleeps <= calls <= FindAttempts(retries)
    ensures r == FindSpec(lookups, retries)
    ensures retries == 0 ==> calls <= 9
    ensures forall j :: 0 <= j < sleeps ==> lookups[j].Absent?
    ensures r == Ok(NotFound) ==> calls == sleeps == FindAttempts(retries)
    ensures r != Ok(NotFound) ==> 0 < calls && sleeps == calls - 1 && r == Answer(lookups[calls - 1])
    ensures r.Ok? && r.value.Dropdown? ==> r.value.element.tag == "select"
  {
    var n := Effective(retries);
    calls, sleeps := 0, 0;
    var x := 1;
    while x < n
      invariant n > 1 ==> 1 <= x <= n
      invariant n <= 1 ==> x == 1
      invariant calls == sleeps == x - 1 <= FindAttempts(retries)
      invariant forall j :: 0 <= j < sleeps ==> lookups[j].Absent?
      invariant FindSpec(lookups, retries) == FindFrom(lookups, calls, FindAttempts(retries))
    {
      var el := lookups[x - 1];
      calls := calls + 1;
      if !el.Absent? {
        return Answer(el), calls, sleeps;
      }
      sleeps := sleeps + 1;
      x := x + 1;
    }
    r := Ok(NotFound);
  }

  /** What one call of `find_elements_by_css_selector` gave: a list of elements, or an exception. */
  datatype ListLookup = Listed(elements: seq<Element>) | ListRaises

  /** `Site.finds`: like `find`, but an empty list is the miss and `[]` the sentinel. */
  method Finds(lookups: seq<ListLookup>, retries: int) returns (r: Result<seq<Element>>, calls: nat, sleeps: nat)
    requires FindAttempts(retries) <= |lookups|
    ensures sleeps <= calls <= FindAttempts(retries)
    ensures forall j :: 0 <= j < sleeps ==> lookups[j] == Listed([])
    ensures r == Ok([]) ==> calls == sleeps == FindAttempts(retries)
    ensures r != Ok([]) ==> 0 < calls && sleeps == calls - 1
    ensures r.Err? ==> lookups[calls - 1] == ListRaises && r.error == DriverError
    ensures r.Ok? && r.value != [] ==> lookups[calls - 1] == Listed(r.value)
    ensures sleeps == FindAttempts(retries) ==> r == Ok([])
  {
    var n := Effective(retries);
    calls, sleeps := 0, 0;
    var x := 1;
    while x < n
      invariant n > 1 ==> 1 <= x <= n
      invariant n <= 1 ==> x == 1
      invariant calls == sleeps == x - 1 <= FindAttempts(retries)
      invariant forall j :: 0 <= j < sleeps ==> lookups[j] == Listed([])
    {
      var els := lookups[x - 1];
      calls := calls + 1;
      match els {
        case ListRaises =>
          return Err(DriverError), calls, sleeps;
        case Listed(found) =>
          if found != [] {
            return Ok(found), calls, sleeps;
          }
      }
      sleeps := sleeps + 1;
      x := x + 1;
    }
    r := Ok([]);
  }

  /** One read of `driver.page_source`: the page, a `WebDriverException` (swallowed),
      or an exception of any other kind (let through). */
  datatype PageRead = Source(html: string) | WebDriverFault | OtherFault

  /** The read shows `text`. */
  ghost predicate Shows(page: PageRead, text: string)
  {
    page.Source? && Occurs(text, page.html)
  }

  /** `page_contains_text` from check `k` of `n` on. */
  function PageFrom(text: string, pages: seq<PageRead>, k: nat, n: nat): Result<bool>
    requires k <= n <= |pages|
    decreases n - k
  {
    if k == n then Ok(false)
    else match pages[k]
      case OtherFault => Err(DriverError)
      case WebDriverFault => PageFrom(text, pages, k + 1, n)
      case Source(html) => if Contains(html, text) then Ok(true) else PageFrom(text, pages, k + 1, n)
  }

  /** The value `page_contains_text` returns (`None` read as false), or the exception it lets through. */
  function PageSpec(text: string, pages: seq<PageRead>, retries: int): Result<bool>
    requires PageAttempts(retries) <= |pages|
  {
    PageFrom(text, pages, 0, PageAttempts(retries))
  }

  /** The text is reported found exactly when some read shows it before any read raises
      an exception other than a `WebDriverException`. */
  lemma {:induction false} PageFromFinds(text: string, pages: seq<PageRead>, k: nat, n: nat)
    requires k <= n <= |pages|
    ensures PageFrom(text, pages, k, n) == Ok(true) <==>
      exists j :: k <= j < n && Shows(pages[j], text) && forall i :: k <= i < j ==> !pages[i].OtherFault?
    ensures PageFrom(text, pages, k, n) == Ok(false) <==>
      forall j :: k <= j < n ==> !Shows(pages[j], text) && !pages[j].OtherFault?
    decreases n - k
  {
    if k < n {
      PageFromFinds(text, pages, k + 1, n);
      if pages[k].Source? {
        ContainsIffOccurs(pages[k].html, text);
      }
      if PageFrom(text, pages, k, n) == Ok(true) && !Shows(pages[k], text) {
        var j :| k + 1 <= j < n && Shows(pages[j], text) && forall i :: k + 1 <= i < j ==> !pages[i].OtherFault?;
        assert forall i :: k <= i < j ==> !pages[i].OtherFault?;
      }
    }
  }

  /** An exception escapes exactly when a read raises one other than a
      `WebDriverException` before any read shows the text. */
  lemma {:induction false} PageFromRaises(text: string, pages: seq<PageRead>, k: nat, n: nat)
    requires k <= n <= |pages|
    ensures PageFrom(text, pages, k, n).Err? <==>
      exists j :: k <= j < n && pages[j].OtherFault? && forall i :: k <= i < j ==> !Shows(pages[i], text)
    decreases n - k
  {
    if k < n {
      PageFromRaises(text, pages, k + 1, n);
      if pages[k].Source? {
        ContainsIffOccurs(pages[k].html, text);
      }
      if PageFrom(text, pages, k, n).Err? && !pages[k].OtherFault? {
        var j :| k + 1 <= j < n && pages[j].OtherFault? && forall i :: k + 1 <= i < j ==> !Shows(pages[i], text);
        assert forall i :: k <= i < j ==> !Shows(pages[i], text);
      }
    }
  }

  /** `Site.page_contains_text`: at most `retries` checks, a sleep after every miss, the last one included. */
  method PageContainsText(text: string, pages: seq<PageRead>, retries: int) returns (r: Result<bool>, checks: nat, sleeps: nat)
    requires PageAttempts(retries) <= |pages|
    ensures sleeps <= checks <= PageAttempts(retries)
    ensures r == PageSpec(text, pages, retries)
    ensures retries == 0 ==> checks <= 10
    ensures forall j :: 0 <= j < sleeps ==> !Shows(pages[j], text) && !pages[j].OtherFault?
    ensures r == Ok(false) ==> checks == sleeps == PageAttempts(retries)
    ensures r == Ok(true) ==> 0 < checks && sleeps == checks - 1 && Shows(pages[checks - 1], text)
    ensures r.Err? ==> 0 < checks && sleeps == checks - 1 && pages[checks - 1].OtherFault?
  {
    var n := Effective(retries);
    checks, sleeps := 0, 0;
    while checks < n
      invariant checks == sleeps <= PageAttempts(retries)
      invariant n > 0 ==> checks <= n
      invariant forall j :: 0 <= j < sleeps ==> !Shows(pages[j], text) && !pages[j].OtherFault?
      invariant PageSpec(text, pages, retries) == PageFrom(text, pages, checks, PageAttempts(retries))
    {
      var page := pages[checks];
      checks := checks + 1;
      match page {
        case OtherFault =>
          return Err(DriverError), checks, sleeps;
        case WebDriverFault =>
        case Source(html) =>
          ContainsIffOccurs(html, text);
          if Contains(html, text) {
            return Ok(true), checks, sleeps;
          }
      }
      sleeps := sleeps + 1;
    }
    r := Ok(false);
  }

  /** `Site.list_options`: the option texts of the drop-down `find` returned. Anything
      else has no `.options`, so the attribute access raises. */
  function ListOptions(found: Found): Result<seq<string>>
  {
    if found.Dropdown? then Ok(found.element.options) else Err(AttributeError)
  }

  /** What `send_keys` is given to type: one key sequence, or a list of them typed in order. */
  datatype Keys = Single(text: string) | Several(texts: seq<string>)

  /** What reaches the element: `clear()`, one character, or TAB. */
  datatype Keystroke = Cleared | Typed(c: char) | Tabbed

  /** Where `send_keys` types: an element found by selector (with `find`'s default retries) or an element given directly. */
  datatype Target = BySelector(lookups: seq<Lookup>) | Given(element: Element)

  function Sequences(keys: Keys): seq<string>
  {
    match keys
    case Single(text) => [text]
    case Several(texts) => texts
  }

  function Chars(text: string): seq<Keystroke>
  {
    if text == [] then [] else [Typed(text[0])] + Chars(text[1..])
  }

  /** `_send_keys` for one sequence: clear, each character in order, TAB. */
  function Strokes(text: string, clear: bool, tab: bool): seq<Keystroke>
  {
    (if clear then [Cleared] else []) + Chars(text) + (if tab then [Tabbed] else [])
  }

  /** All keystrokes for a list of sequences, one `_send_keys` after another. */
  function AllStrokes(texts: seq<string>, clear: bool, tab: bool): seq<Keystroke>
  {
    if texts == [] then [] else Strokes(texts[0], clear, tab) + AllStrokes(texts[1..], clear, tab)
  }

  /** The characters typed, in order, leaving out clears and TABs. */
  function TypedText(strokes: seq<Keystroke>): string
  {
    if strokes == [] then []
    else (if strokes[0].Typed? then [strokes[0].c] else []) + TypedText(strokes[1..])
  }

  /** The number of `clear()` calls among the keystrokes. */
  function Clears(strokes: seq<Keystroke>): nat
  {
    if strokes == [] then 0 else (if strokes[0] == Cleared then 1 else 0) + Clears(strokes[1..])
  }

  function Join(texts: seq<string>): string
  {
    if texts == [] then [] else texts[0] + Join(texts[1..])
  }

  lemma {:induction false} TypedTextAppend(a: seq<Keystroke>, b: seq<Keystroke>)
    ensures TypedText(a + b) == TypedText(a) + TypedText(b)
    ensures Clears(a + b) == Clears(a) + Clears(b)
    decreases |a|
  {
    if a == [] {
      assert a + b == b;
    } else {
      assert (a + b)[0] == a[0];
      assert (a + b)[1..] == a[1..] + b;
      TypedTextAppend(a[1..], b);
    }
  }

  lemma {:induction false} CharsTyped(text: string)
    ensures TypedText(Chars(text)) == text && Clears(Chars(text)) == 0
    decreases |text|
  {
    if text != [] {
      TypedTextAppend([Typed(text[0])], Chars(text[1..]));
      CharsTyped(text[1..]);
    }
  }

  /** One `_send_keys` types its sequence, with one `clear()` when asked. */
  lemma StrokesTyped(text: string, clear: bool, tab: bool)
    ensures TypedText(Strokes(text, clear, tab)) == text
    ensures Clears(Strokes(text, clear, tab)) == (if clear then 1 else 0)
  {
    var pre: seq<Keystroke> := if clear then [Cleared] else [];
    var post: seq<Keystroke> := if tab then [Tabbed] else [];
    if clear {
      assert pre[1..] == [];
    }
    if tab {
      assert post[1..] == [];
    }
    CharsTyped(text);
    TypedTextAppend(pre, Chars(text));
    TypedTextAppend(pre + Chars(text), post);
  }

  /** Typing a list of sequences types their concatenation, with one `clear()` per sequence when asked. */
  lemma {:induction false} AllStrokesTypeJoin(texts: seq<string>, clear: bool, tab: bool)
    ensures TypedText(AllStrokes(texts, clear, tab)) == Join(texts)
    ensures Clears(AllStrokes(texts, clear, tab)) == (if clear then |texts| else 0)
    decreases |texts|
  {
    if texts != [] {
      StrokesTyped(texts[0], clear, tab);
      TypedTextAppend(Strokes(texts[0], clear, tab), AllStrokes(texts[1..], clear, tab));
      AllStrokesTypeJoin(texts[1..], clear, tab);
    }
  }

  /** The element `send_keys` types into, or the exception raised while finding it. */
  function TargetSpec(target: Target): Result<Found>
    requires target.BySelector? ==> FindAttempts(0) <= |target.lookups|
  {
    match target
    case BySelector(lookups) => FindSpec(lookups, 0)
    case Given(e) => Ok(Plain(e))
  }

  /** `Site.send_keys`: resolve the target, then type each key sequence of the list
      (or the single one). A `Select` wrapper has neither `clear` nor `send_keys`,
      so its first keystroke raises. */
  method SendKeys(target: Target, keys: Keys, clear: bool, tab: bool) returns (r: Result<seq<Keystroke>>)
    requires target.BySelector? ==> FindAttempts(0) <= |target.lookups|
    ensures TargetSpec(target) == Ok(NotFound) ==> r == Err(ElementNotFound)
    ensures TargetSpec(target).Err? ==> r == Err(TargetSpec(target).error)
    ensures TargetSpec(target).Ok? && TargetSpec(target).value.Plain? ==>
      r == Ok(AllStrokes(Sequences(keys), clear, tab))
    ensures TargetSpec(target).Ok? && TargetSpec(target).value.Dropdown? ==>
      r == if AllStrokes(Sequences(keys), clear, tab) == [] then Ok([]) else Err(AttributeError)
  {
    var el: Found;
    if target.BySelector? {
      var found, _, _ := Find(target.lookups, 0);
      if found.Err? {
        return Err(found.error);
      }
      el := found.value;
    } else {
      el := Plain(target.element);
    }
    if el.NotFound? {
      return Err(ElementNotFound);
    }
    var texts := Sequences(keys);
    var strokes: seq<Keystroke> := [];
    for k := 0 to |texts|
      invariant strokes + AllStrokes(texts[k..], clear, tab) == AllStrokes(texts, clear, tab)
      invariant el.Dropdown? ==> strokes == []
    {
      assert texts[k..][1..] == texts[k + 1..];
      var s := Strokes(texts[k], clear, tab);
      if el.Dropdown? && s != [] {
        return Err(AttributeError);
      }
      strokes := strokes + s;
    }
    assert texts[|texts|..] == [];
    assert strokes + AllStrokes(texts[|texts|..], clear, tab) == strokes;
    r := Ok(strokes);
  }
}
