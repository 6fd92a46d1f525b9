/**
 * The page script assets/js/main.js: the navigation-menu toggle and the tab
 * switcher `openBlog`.
 *
 * The document is a store of elements in tree order. Each element has an id
 * (the empty string stands for "no id"), the value of its `style.display` and
 * its `className` string. The two `getElementsByClassName` results that
 * `openBlog` loops over are given as sequences of indices into the store; an
 * element may sit in both, and the named panel or the clicked element may sit
 * in neither.
 */
module PageScript {
  import opened JsString

  datatype Element = Element(id: string, display: string, className: string)

  /** How a call of `openBlog` ends: normally, or with the TypeError thrown by `null.style`. */
  datatype Outcome = Completed | TypeError

  /** The outcome of `openBlog` together with the element store it leaves behind. */
  datatype Effect = Effect(outcome: Outcome, store: seq<Element>)

  /** The marker the tab switcher appends to, and removes from, a link's class string. */
  const Active: string := " active"

  /** Every index of a collection names an element of the store. */
  predicate InRange(store: seq<Element>, ks: seq<nat>)
  {
    forall i :: 0 <= i < |ks| ==> ks[i] < |store|
  }

  /** An HTMLCollection lists each element at most once. */
  predicate Distinct(ks: seq<nat>)
  {
    forall i, j :: 0 <= i < j < |ks| ==> ks[i] != ks[j]
  }

  /** The collections `openBlog` works on, and the clicked element, belong to the store. */
  predicate WellFormedCall(store: seq<Element>, tabcontent: seq<nat>, tablinks: seq<nat>, currentTarget: nat)
  {
    InRange(store, tabcontent) && InRange(store, tablinks) && Distinct(tablinks) &&
    currentTarget < |store|
  }

  /** In the DOM an empty id attribute gives an element no ID, so `""` never matches. */
  predicate HasId(e: Element, name: string)
  {
    name != "" && e.id == name
  }

  /** `document.getElementById(name)` searched from index `from`: the first match in tree order. */
  function GetElementByIdFrom(store: seq<Element>, name: string, from: nat): (r: Option<nat>)
    decreases |store| - from
    ensures r.Some? ==> from <= r.value < |store| && HasId(store[r.value], name)
    ensures forall k :: from <= k < |store| && (r.None? || k < r.value) ==> !HasId(store[k], name)
  {
    if from >= |store| then None
    else if HasId(store[from], name) then Some(from)
    else GetElementByIdFrom(store, name, from + 1)
  }

  /** `document.getElementById(name)`; `None` stands for `null`. */
  function GetElementById(store: seq<Element>, name: string): (r: Option<nat>)
    ensures r.None? <==> forall k :: 0 <= k < |store| ==> !HasId(store[k], name)
    ensures r.Some? ==> r.value < |store| && HasId(store[r.value], name) &&
                        forall k :: 0 <= k < r.value ==> !HasId(store[k], name)
  {
    GetElementByIdFrom(store, name, 0)
  }

  /** The store once every element of `tabcontent` has `style.display` set to "none". */
  function Hidden(store: seq<Element>, tabcontent: seq<nat>): (r: seq<Element>)
  {
    seq(|store|, k requires 0 <= k < |store| =>
      if k in tabcontent then store[k].(display := "none") else store[k])
  }

  /** The store once the first " active" is removed from the class string of every element of `tablinks`. */
  function Cleared(store: seq<Element>, tablinks: seq<nat>): (r: seq<Element>)
  {
    seq(|store|, k requires 0 <= k < |store| =>
      if k in tablinks then store[k].(className := ReplaceFirst(store[k].className, Active, ""))
      else store[k])
  }

  /**
   * What `openBlog(evt, blogName)` does to the store: both loops run, then the
   * panel found by id is shown and the clicked element is marked; when no
   * element has that id, the call throws after the loops and marks nothing.
   */
  function OpenBlogEffect(store: seq<Element>, tabcontent: seq<nat>, tablinks: seq<nat>,
                          blogName: string, currentTarget: nat): (r: Effect)
    requires currentTarget < |store|
  {
    var looped := Cleared(Hidden(store, tabcontent), tablinks);
    match GetElementById(looped, blogName)
    case None => Effect(TypeError, looped)
    case Some(p) =>
      var shown := looped[p := looped[p].(display := "block")];
      Effect(Completed, shown[currentTarget := shown[currentTarget].(className := shown[currentTarget].className + Active)])
  }

  /** The document, whose element store the tab switcher updates in place. */
  class Document {
    var elements: seq<Element>

    constructor (elements: seq<Element>)
      ensures this.elements == elements
    {
      this.elements := elements;
    }

    /** `openBlog(evt, blogName)` with `evt.currentTarget` the element at `currentTarget`. */
    method OpenBlog(tabcontent: seq<nat>, tablinks: seq<nat>, blogName: string, currentTarget: nat)
      returns (outcome: Outcome)
      requires WellFormedCall(elements, tabcontent, tablinks, currentTarget)
      modifies this
      ensures Effect(outcome, elements) == OpenBlogEffect(old(elements), tabcontent, tablinks, blogName, currentTarget)
    {
      var i := 0;
      while i < |tabcontent|
        invariant 0 <= i <= |tabcontent|
        invariant elements == Hidden(old(elements), tabcontent[..i])
      {
        assert tabcontent[..i + 1] == tabcontent[..i] + [tabcontent[i]];
        var k := tabcontent[i];
        elements := elements[k := elements[k].(display := "none")];
        i := i + 1;
      }
      assert tabcontent[..i] == tabcontent;
      ghost var hidden := elements;
      i := 0;
      while i < |tablinks|
        invariant 0 <= i <= |tablinks|
        invariant elements == Cleared(hidden, tablinks[..i])
      {
        assert tablinks[..i + 1] == tablinks[..i] + [tablinks[i]];
        var k := tablinks[i];
        assert k !in tablinks[..i];
        elements := elements[k := elements[k].(className := ReplaceFirst(elements[k].className, Active, ""))];
        i := i + 1;
      }
      assert tablinks[..i] == tablinks;
      var panel := GetElementById(elements, blogName);
      if panel.None? {
        return TypeError;
      }
      elements := elements[panel.value := elements[panel.value].(display := "block")];
      elements := elements[currentTarget := elements[currentTarget].(className := elements[currentTarget].className + Active)];
      outcome := Completed;
    }

    /**
     * The startup line: `document.getElementById("defaultOpen").click()`, whose
     * click handler calls `openBlog` with the named panel `blogName`. The two
     * `TypeError` outcomes differ in where the error goes: a missing
     * `defaultOpen` element makes `null.click()` throw out of line 25 before
     * anything changes, while a `TypeError` from `openBlog` means the click
     * handler threw; event dispatch reports that error and `.click()` itself
     * returns normally.
     */
    method Startup(tabcontent: seq<nat>, tablinks: seq<nat>, blogName: string) returns (outcome: Outcome)
      requires InRange(elements, tabcontent) && InRange(elements, tablinks) && Distinct(tablinks)
      modifies this
      ensures GetElementById(old(elements), "defaultOpen").None? ==>
                outcome == TypeError && elements == old(elements)
      ensures GetElementById(old(elements), "defaultOpen").Some? ==>
                Effect(outcome, elements) ==
                OpenBlogEffect(old(elements), tabcontent, tablinks, blogName,
                               GetElementById(old(elements), "defaultOpen").value)
    {
      var defaultOpen := GetElementById(elements, "defaultOpen");
      if defaultOpen.None? {
        return TypeError;
      }
      outcome := OpenBlog(tabcontent, tablinks, blogName, defaultOpen.value);
    }
  }

  /* ---------- what openBlog guarantees ---------- */

  /**
   * The call completes exactly when some element has the id `blogName`; that
   * element, the first such in tree order, is shown whether or not it is one of
   * the panels.
   */
  lemma NamedPanelShown(store: seq<Element>, tabcontent: seq<nat>, tablinks: seq<nat>,
                        blogName: string, currentTarget: nat)
    requires WellFormedCall(store, tabcontent, tablinks, currentTarget)
    ensures var r := OpenBlogEffect(store, tabcontent, tablinks, blogName, currentTarget);
            (r.outcome == Completed <==> exists k :: 0 <= k < |store| && HasId(store[k], blogName)) &&
            (r.outcome == Completed ==> r.store[GetElementById(store, blogName).value].display == "block")
  {
    SameIdsSameLookup(store, Cleared(Hidden(store, tabcontent), tablinks), blogName);
  }

  /**
   * After a completed call, every panel is hidden except the element with the
   * id `blogName`, which is shown.
   */
  lemma PanelsExclusive(store: seq<Element>, tabcontent: seq<nat>, tablinks: seq<nat>,
                        blogName: string, currentTarget: nat)
    requires WellFormedCall(store, tabcontent, tablinks, currentTarget)
    ensures var r := OpenBlogEffect(store, tabcontent, tablinks, blogName, currentTarget);
            r.outcome == Completed ==>
              forall i :: 0 <= i < |tabcontent| ==>
                r.store[tabcontent[i]].display ==
                  if Some(tabcontent[i]) == GetElementById(store, blogName) then "block" else "none"
  {
    SameIdsSameLookup(store, Cleared(Hidden(store, tabcontent), tablinks), blogName);
  }

  /**
   * Every link loses the first " active" of its class string; the clicked
   * element, whether or not it is a link, then gains " active" at the end,
   * which the clearing loop cannot undo because it has already run.
   */
  lemma LinksClearedThenClickedMarked(store: seq<Element>, tabcontent: seq<nat>, tablinks: seq<nat>,
                                      blogName: string, currentTarget: nat)
    requires WellFormedCall(store, tabcontent, tablinks, currentTarget)
    ensures var r := OpenBlogEffect(store, tabcontent, tablinks, blogName, currentTarget);
            (forall i :: 0 <= i < |tablinks| && (r.outcome == TypeError || tablinks[i] != currentTarget) ==>
               r.store[tablinks[i]].className == ReplaceFirst(store[tablinks[i]].className, Active, "")) &&
            (r.outcome == Completed ==>
               r.store[currentTarget].className ==
                 (if currentTarget in tablinks then ReplaceFirst(store[currentTarget].className, Active, "")
                  else store[currentTarget].className) + Active &&
               EndsWith(r.store[currentTarget].className, Active))
  {
  }

  /**
   * With no element of id `blogName`, the call throws after both loops: every
   * panel is hidden, every link is cleared, nothing is shown and the clicked
   * element is not marked.
   */
  lemma MissingPanelThrows(store: seq<Element>, tabcontent: seq<nat>, tablinks: seq<nat>,
                           blogName: string, currentTarget: nat)
    requires WellFormedCall(store, tabcontent, tablinks, currentTarget)
    requires forall k :: 0 <= k < |store| ==> !HasId(store[k], blogName)
    ensures var r := OpenBlogEffect(store, tabcontent, tablinks, blogName, currentTarget);
            r.outcome == TypeError &&
            r.store == Cleared(Hidden(store, tabcontent), tablinks) &&
            (forall i :: 0 <= i < |tabcontent| ==> r.store[tabcontent[i]].display == "none") &&
            (forall k :: 0 <= k < |store| && k !in tabcontent ==> r.store[k].display == store[k].display) &&
            r.store[currentTarget].className ==
              if currentTarget in tablinks then ReplaceFirst(store[currentTarget].className, Active, "")
              else store[currentTarget].className
  {
    SameIdsSameLookup(store, Cleared(Hidden(store, tabcontent), tablinks), blogName);
  }

  /**
   * Nothing else changes: ids and the number of elements stay, and an element
   * that is neither a panel, a link, the named panel nor the clicked element
   * keeps its display and class string.
   */
  lemma OthersUnchanged(store: seq<Element>, tabcontent: seq<nat>, tablinks: seq<nat>,
                        blogName: string, currentTarget: nat)
    requires WellFormedCall(store, tabcontent, tablinks, currentTarget)
    ensures var r := OpenBlogEffect(store, tabcontent, tablinks, blogName, currentTarget);
            |r.store| == |store| &&
            (forall k :: 0 <= k < |store| ==> r.store[k].id == store[k].id) &&
            (forall k ::
               (0 <= k < |store| && k !in tabcontent && k !in tablinks && k != currentTarget &&
                Some(k) != GetElementById(store, blogName)) ==> r.store[k] == store[k])
  {
    SameIdsSameLookup(store, Cleared(Hidden(store, tabcontent), tablinks), blogName);
  }

  /** Two stores that agree on every id answer `getElementById` alike. */
  lemma {:induction false} SameIdsSameLookupFrom(s: seq<Element>, t: seq<Element>, name: string, from: nat)
    requires |s| == |t|
    requires forall k :: 0 <= k < |s| ==> s[k].id == t[k].id
    ensures GetElementByIdFrom(s, name, from) == GetElementByIdFrom(t, name, from)
    decreases |s| - from
  {
    if from < |s| {
      SameIdsSameLookupFrom(s, t, name, from + 1);
    }
  }

  lemma SameIdsSameLookup(s: seq<Element>, t: seq<Element>, name: string)
    requires |s| == |t|
    requires forall k :: 0 <= k < |s| ==> s[k].id == t[k].id
    ensures GetElementById(s, name) == GetElementById(t, name)
  {
    SameIdsSameLookupFrom(s, t, name, 0);
  }

  /* ---------- the " active" marker on link class strings ---------- */

  /** The class string holds no " active". */
  predicate Unmarked(c: string)
  {
    !Contains(c, Active)
  }

  /** The class string is an unmarked one with " active" appended, as line 21 leaves it. */
  predicate Marked(c: string)
  {
    EndsWith(c, Active) && Unmarked(c[..|c| - |Active|])
  }

  /** The shapes a link's class string takes when only `openBlog` adds " active". */
  predicate LinkClass(c: string)
  {
    Unmarked(c) || Marked(c)
  }

  predicate LinksWellFormed(store: seq<Element>, tablinks: seq<nat>)
    requires InRange(store, tablinks)
  {
    forall i :: 0 <= i < |tablinks| ==> LinkClass(store[tablinks[i]].className)
  }

  lemma ActiveNoSelfOverlap()
    ensures NoSelfOverlap(Active)
  {
    assert Active == [' ', 'a', 'c', 't', 'i', 'v', 'e'];
  }

  /** Clearing a link's class string leaves it unmarked, and marking an unmarked one makes it marked. */
  lemma ClearThenMark(c: string)
    requires LinkClass(c)
    ensures Unmarked(ReplaceFirst(c, Active, ""))
    ensures Marked(ReplaceFirst(c, Active, "") + Active)
  {
    var d := ReplaceFirst(c, Active, "");
    if Marked(c) {
      var a := c[..|c| - |Active|];
      assert c == a + Active;
      ActiveNoSelfOverlap();
      ReplaceTrailing(a, Active);
      assert d == a;
    }
    assert (d + Active)[..|d + Active| - |Active|] == d;
  }

  /** A marked class string contains " active". */
  lemma MarkedContainsActive(c: string)
    requires Marked(c)
    ensures Contains(c, Active)
  {
    EndsWithContains(c, Active);
  }

  /**
   * When every link's class string has the shape `openBlog` leaves behind, every
   * call, completed or not, keeps that shape, and afterwards a link's class
   * string contains " active" exactly when the call completed and that link is
   * the clicked element. So a completed click on a link leaves it the only
   * active link, and a click on anything else, or a failed call, leaves none.
   */
  lemma ClickedIsOnlyActiveLink(store: seq<Element>, tabcontent: seq<nat>, tablinks: seq<nat>,
                                blogName: string, currentTarget: nat)
    requires WellFormedCall(store, tabcontent, tablinks, currentTarget)
    requires LinksWellFormed(store, tablinks)
    ensures var r := OpenBlogEffect(store, tabcontent, tablinks, blogName, currentTarget);
            LinksWellFormed(r.store, tablinks) &&
            forall i :: 0 <= i < |tablinks| ==>
              (Contains(r.store[tablinks[i]].className, Active) <==>
               r.outcome == Completed && tablinks[i] == currentTarget)
  {
    var r := OpenBlogEffect(store, tabcontent, tablinks, blogName, currentTarget);
    LinksClearedThenClickedMarked(store, tabcontent, tablinks, blogName, currentTarget);
    forall i | 0 <= i < |tablinks|
      ensures LinkClass(r.store[tablinks[i]].className)
      ensures Contains(r.store[tablinks[i]].className, Active) <==>
              r.outcome == Completed && tablinks[i] == currentTarget
    {
      ClearThenMark(store[tablinks[i]].className);
      if r.outcome == Completed && tablinks[i] == currentTarget {
        MarkedContainsActive(r.store[tablinks[i]].className);
      }
    }
  }

  /**
   * With a clicked link and well-shaped link class strings, clicking the same
   * link for the same panel again changes nothing.
   */
  lemma {:induction false} OpenBlogIdempotent(store: seq<Element>, tabcontent: seq<nat>, tablinks: seq<nat>,
                                              blogName: string, currentTarget: nat)
    requires WellFormedCall(store, tabcontent, tablinks, currentTarget)
    requires LinksWellFormed(store, tablinks)
    requires currentTarget in tablinks
    requires OpenBlogEffect(store, tabcontent, tablinks, blogName, currentTarget).outcome == Completed
    ensures var once := OpenBlogEffect(store, tabcontent, tablinks, blogName, currentTarget).store;
            OpenBlogEffect(once, tabcontent, tablinks, blogName, currentTarget) == Effect(Completed, once)
  {
    var once := OpenBlogEffect(store, tabcontent, tablinks, blogName, currentTarget).store;
    OthersUnchanged(store, tabcontent, tablinks, blogName, currentTarget);
    SameIdsSameLookup(store, once, blogName);
    NamedPanelShown(once, tabcontent, tablinks, blogName, currentTarget);
    var twice := OpenBlogEffect(once, tabcontent, tablinks, blogName, currentTarget).store;
    forall k | 0 <= k < |once|
      ensures twice[k] == once[k]
    {
      var named := Some(k) == GetElementById(store, blogName);
      EffectAt(store, tabcontent, tablinks, blogName, currentTarget, k);
      EffectAt(once, tabcontent, tablinks, blogName, currentTarget, k);
      if k in tablinks {
        assert LinkClass(store[k].className);
        SecondClearing(store[k].className);
      }
    }
  }

  /** What `openBlog` does to one element, given which roles the element plays in the call. */
  function ElementAfter(e: Element, panel: bool, link: bool, named: bool, clicked: bool): (r: Element)
    ensures r.id == e.id
  {
    var hidden := if panel then e.(display := "none") else e;
    var cleared := if link then hidden.(className := ReplaceFirst(hidden.className, Active, "")) else hidden;
    var shown := if named then cleared.(display := "block") else cleared;
    if clicked then shown.(className := shown.className + Active) else shown
  }

  /** A completed call treats every element by the roles it plays, independently of the others. */
  lemma EffectAt(store: seq<Element>, tabcontent: seq<nat>, tablinks: seq<nat>,
                 blogName: string, currentTarget: nat, k: nat)
    requires WellFormedCall(store, tabcontent, tablinks, currentTarget)
    requires OpenBlogEffect(store, tabcontent, tablinks, blogName, currentTarget).outcome == Completed
    requires k < |store|
    ensures OpenBlogEffect(store, tabcontent, tablinks, blogName, currentTarget).store[k] ==
            ElementAfter(store[k], k in tabcontent, k in tablinks,
                         Some(k) == GetElementById(store, blogName), k == currentTarget)
  {
    SameIdsSameLookup(store, Cleared(Hidden(store, tabcontent), tablinks), blogName);
  }

  /**
   * On a well-formed link class string, a second clearing finds nothing to
   * remove, and clearing the re-marked string gives the cleared one back.
   */
  lemma SecondClearing(c: string)
    requires LinkClass(c)
    ensures ReplaceFirst(ReplaceFirst(c, Active, ""), Active, "") == ReplaceFirst(c, Active, "")
    ensures ReplaceFirst(ReplaceFirst(c, Active, "") + Active, Active, "") == ReplaceFirst(c, Active, "")
  {
    ClearThenMark(c);
    var d := ReplaceFirst(c, Active, "");
    ReplaceTrailingActive(d + Active);
  }

  /** Clearing a marked class string takes off the trailing " active". */
  lemma ReplaceTrailingActive(c: string)
    requires Marked(c)
    ensures ReplaceFirst(c, Active, "") + Active == c
  {
    var a := c[..|c| - |Active|];
    assert c == a + Active;
    ActiveNoSelfOverlap();
    ReplaceTrailing(a, Active);
  }

  /**
   * Holding " active" at most once is not enough for the clicked link to end up
   * the only active one: removing the single match of "x act activeive" joins
   * "x act" and "ive" into a new match.
   */
  lemma SingleMatchCanReappear()
    ensures forall j: nat :: OccursAt("x act" + Active + "ive", Active, j) <==> j == 5
    ensures ReplaceFirst("x act" + Active + "ive", Active, "") == "x act" + "ive"
    ensures Contains("x act" + "ive", Active)
  {
    var s := "x act" + Active + "ive";
    OnlyMatchAtFive();
    ReplaceFirstAt(s, Active, "", 5);
    assert s[..5] == "x act";
    assert s[12..] == "ive";
    var r := "x act" + "ive";
    assert r[1..8] == Active by {
      assert r[1] == ' ' && r[2] == 'a' && r[3] == 'c' && r[4] == 't';
      assert r[5] == 'i' && r[6] == 'v' && r[7] == 'e';
    }
    assert OccursAt(r, Active, 1);
  }

  /** `"x act activeive"` holds `" active"` at index 5 and nowhere else. */
  lemma OnlyMatchAtFive()
    ensures forall j: nat :: OccursAt("x act" + Active + "ive", Active, j) <==> j == 5
  {
    var s := "x act" + Active + "ive";
    assert |s| == 15;
    forall j: nat
      ensures OccursAt(s, Active, j) <==> j == 5
    {
      if j == 5 {
        assert s[5..12] == Active;
      } else if j == 1 {
        assert s[5] == ' ';
        assert s[1..8][4] == s[5] != Active[4];
      } else if j + 7 <= |s| {
        assert s[j] != ' ' by {
          if j == 0 {} else if j == 2 {} else if j == 3 {} else if j == 4 {}
          else if j == 6 {} else if j == 7 {} else {}
        }
        assert s[j..j + 7][0] == s[j];
      }
    }
  }

  /**
   * The first match need not be the marker token: "tablinks activeTab" loses
   * " active" from inside the token "activeTab", and with it the token
   * "tablinks".
   */
  lemma ReplaceCutsInsideToken()
    ensures ReplaceFirst("tablinks" + Active + "Tab", Active, "") == "tablinks" + "Tab"
  {
    var s := "tablinks" + Active + "Tab";
    forall j: nat | j < 8
      ensures !OccursAt(s, Active, j)
    {
      assert s[j] == "tablinks"[j] != ' ';
      assert s[j..j + 7][0] == s[j];
    }
    ReplaceFirstAt(s, Active, "", 8);
    assert s[..8] == "tablinks";
    assert s[15..] == "Tab";
  }

  /* ---------- the navigation menu ---------- */

  /** `DOMTokenList.toggle(token)` without `force`: remove the token if present, add it otherwise. */
  function Toggled(tokens: set<string>, token: string): (r: set<string>)
    ensures token in r <==> token !in tokens
    ensures r - {token} == tokens - {token}
  {
    if token in tokens then tokens - {token} else tokens + {token}
  }

  /** Toggling the same token twice restores the class set. */
  lemma ToggleTwiceRestores(tokens: set<string>, token: string)
    ensures Toggled(Toggled(tokens, token), token) == tokens
  {
    var once := Toggled(tokens, token);
    var twice := Toggled(once, token);
    assert twice - {token} == tokens - {token};
    assert token in twice <==> token in tokens;
  }

  /** The `.navbar-collapse` element, whose class list the menu button toggles. */
  class NavbarCollapse {
    var classList: set<string>

    constructor (classList: set<string>)
      ensures this.classList == classList
    {
      this.classList := classList;
    }

    /** The `onclick` handler of `.navbar-toggler`: `el2.classList.toggle('show')`. */
    method OnTogglerClick()
      modifies this
      ensures classList == Toggled(old(classList), "show")
      ensures "show" in classList <==> "show" !in old(classList)
    {
      if "show" in classList {
        classList := classList - {"show"};
      } else {
        classList := classList + {"show"};
      }
    }
  }
}
