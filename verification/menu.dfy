/** The menu injector. A rendered share menu is a sequence of items in
    document order; an item is the list entry (or the parent element) around
    one button. The injector adds one marked copy of the "Copy link to
    Episode" entry, relabelled, next to it. */
module MenuInjector {
  import opened Outcomes
  import Text

  /** A descendant of a button that may hold its label: the attributes the
      label selectors test, and the node's text. */
  datatype LabelNode = LabelNode(isSpan: bool, encoreId: Option<string>, dir: Option<string>, text: string)

  /** A button: whether it carries `role="menuitem"`, its own text content,
      its descendants in document order, and whether it carries the injected
      action marker. */
  datatype Button = Button(isMenuItem: bool, text: string, nodes: seq<LabelNode>, action: bool)

  /** A menu entry: whether it carries the injection marker, whether it is a
      direct child of the menu element, and its button if it has one. */
  datatype Item = Item(marked: bool, directChild: bool, button: Option<Button>)

  type Menu = seq<Item>

  datatype Injection = Injection(injected: bool, menu: Menu)

  /** The label-node selectors, highest priority first:
      `[data-encore-id="text"]`, `[data-encore-id="type"]`,
      `span[dir="auto"]`, `span`. */
  datatype Selector = EncoreText | EncoreType | SpanDirAuto | AnySpan

  const LABEL_SELECTORS: seq<Selector> := [EncoreText, EncoreType, SpanDirAuto, AnySpan]

  /** The text a template button's label must contain, once lower-cased. */
  const TEMPLATE_TEXT: string := "copy link to episode"

  /** The injected entry's label. */
  const MENU_LABEL: string := "Copy link to Episode at current time"

  /** The transient labels the click handler shows before reverting to the
      original label after `REVERT_DELAY_MS`. */
  const NOT_ON_EPISODE_HINT: string := "Open a podcast episode"
  const COPIED_HINT: string := "Copied timestamp link"
  const COPY_FAILED_HINT: string := "Copy failed"
  const REVERT_DELAY_MS: nat := 1500

  /** `[dir="auto"]`: HTML matches the `dir` attribute's value without
      regard to ASCII case. */
  predicate IsDirAuto(n: LabelNode)
  {
    n.dir.Some? && Text.ToLower(n.dir.value) == "auto"
  }

  predicate Selects(sel: Selector, n: LabelNode)
  {
    match sel
    case EncoreText => n.encoreId == Some("text")
    case EncoreType => n.encoreId == Some("type")
    case SpanDirAuto => n.isSpan && IsDirAuto(n)
    case AnySpan => n.isSpan
  }

  /** How strongly a node claims to be the label: the position of the first
      selector it satisfies, 4 when it satisfies none. */
  function Rank(n: LabelNode): nat
  {
    if n.encoreId == Some("text") then 0
    else if n.encoreId == Some("type") then 1
    else if n.isSpan && IsDirAuto(n) then 2
    else if n.isSpan then 3
    else 4
  }

  /** `querySelector(sel)` restricted to the nodes from position `k` on. */
  function QueryFrom(nodes: seq<LabelNode>, sel: Selector, k: nat): (r: Option<nat>)
    requires k <= |nodes|
    ensures r.Some? ==> k <= r.value < |nodes| && Selects(sel, nodes[r.value])
    ensures r.Some? ==> forall j :: k <= j < r.value ==> !Selects(sel, nodes[j])
    ensures r.None? ==> forall j :: k <= j < |nodes| ==> !Selects(sel, nodes[j])
    decreases |nodes| - k
  {
    if k == |nodes| then None
    else if Selects(sel, nodes[k]) then Some(k)
    else QueryFrom(nodes, sel, k + 1)
  }

  /** Tries the selectors from position `k` of the priority list on, taking
      the first node the first successful selector finds. */
  function CascadeFrom(nodes: seq<LabelNode>, k: nat): (r: Option<nat>)
    requires k <= |LABEL_SELECTORS|
    ensures r.Some? ==> r.value < |nodes|
    decreases |LABEL_SELECTORS| - k
  {
    if k == |LABEL_SELECTORS| then None
    else match QueryFrom(nodes, LABEL_SELECTORS[k], 0)
      case Some(i) => Some(i)
      case None => CascadeFrom(nodes, k + 1)
  }

  /** `getMenuLabelNode`: the index of the button's label node, if any. */
  function LabelNodeIndex(nodes: seq<LabelNode>): (r: Option<nat>)
    ensures r.Some? ==> r.value < |nodes|
  {
    CascadeFrom(nodes, 0)
  }

  /** A node satisfies the selector at position `k` only if its rank is at
      most `k`, and a node of rank `k` satisfies it. */
  lemma SelectorRank(k: nat, n: LabelNode)
    requires k < |LABEL_SELECTORS|
    ensures Selects(LABEL_SELECTORS[k], n) ==> Rank(n) <= k
    ensures Rank(n) == k ==> Selects(LABEL_SELECTORS[k], n)
  {
  }

  lemma {:induction false} CascadeIsBestRanked(nodes: seq<LabelNode>, k: nat)
    requires k <= |LABEL_SELECTORS|
    requires forall j :: 0 <= j < |nodes| ==> Rank(nodes[j]) >= k
    ensures CascadeFrom(nodes, k).None? <==> forall j :: 0 <= j < |nodes| ==> Rank(nodes[j]) == 4
    ensures CascadeFrom(nodes, k).Some? ==>
              var i := CascadeFrom(nodes, k).value;
              && Rank(nodes[i]) < 4
              && (forall j :: 0 <= j < |nodes| ==> Rank(nodes[j]) >= Rank(nodes[i]))
              && (forall j :: 0 <= j < i ==> Rank(nodes[j]) > Rank(nodes[i]))
    decreases |LABEL_SELECTORS| - k
  {
    if k == |LABEL_SELECTORS| {
    } else {
      var sel := LABEL_SELECTORS[k];
      match QueryFrom(nodes, sel, 0)
      case Some(i) =>
        SelectorRank(k, nodes[i]);
        forall j | 0 <= j < i
          ensures Rank(nodes[j]) > Rank(nodes[i])
        {
          if Rank(nodes[j]) == k {
            SelectorRank(k, nodes[j]);
          }
        }
      case None =>
        forall j | 0 <= j < |nodes|
          ensures Rank(nodes[j]) >= k + 1
        {
          if Rank(nodes[j]) == k {
            SelectorRank(k, nodes[j]);
          }
        }
        CascadeIsBestRanked(nodes, k + 1);
    }
  }

  /** The selector cascade picks the earliest node of the best rank, and
      finds nothing exactly when no descendant is a span or carries a
      text/type `data-encore-id`. */
  lemma LabelNodeIsBestRanked(nodes: seq<LabelNode>)
    ensures LabelNodeIndex(nodes).None? <==> forall j :: 0 <= j < |nodes| ==> Rank(nodes[j]) == 4
    ensures LabelNodeIndex(nodes).Some? ==>
              var i := LabelNodeIndex(nodes).value;
              && Rank(nodes[i]) < 4
              && (forall j :: 0 <= j < |nodes| ==> Rank(nodes[j]) >= Rank(nodes[i]))
              && (forall j :: 0 <= j < i ==> Rank(nodes[j]) > Rank(nodes[i]))
  {
    CascadeIsBestRanked(nodes, 0);
  }

  /** Two node lists that differ at most in their texts. */
  predicate SameAttributes(a: seq<LabelNode>, b: seq<LabelNode>)
  {
    && |a| == |b|
    && forall j :: 0 <= j < |a| ==>
         a[j].isSpan == b[j].isSpan && a[j].encoreId == b[j].encoreId && a[j].dir == b[j].dir
  }

  lemma {:induction false} QuerySameAttributes(a: seq<LabelNode>, b: seq<LabelNode>, sel: Selector, k: nat)
    requires SameAttributes(a, b) && k <= |a|
    ensures QueryFrom(a, sel, k) == QueryFrom(b, sel, k)
    decreases |a| - k
  {
    if k < |a| {
      QuerySameAttributes(a, b, sel, k + 1);
    }
  }

  lemma {:induction false} CascadeSameAttributes(a: seq<LabelNode>, b: seq<LabelNode>, k: nat)
    requires SameAttributes(a, b) && k <= |LABEL_SELECTORS|
    ensures CascadeFrom(a, k) == CascadeFrom(b, k)
    decreases |LABEL_SELECTORS| - k
  {
    if k < |LABEL_SELECTORS| {
      QuerySameAttributes(a, b, LABEL_SELECTORS[k], 0);
      CascadeSameAttributes(a, b, k + 1);
    }
  }

  /** `getButtonLabel`: the label node's text, else the button's own text,
      trimmed. */
  function ButtonLabel(b: Button): (r: string)
    ensures |r| > 0 ==> !Text.IsTrimmable(r[0]) && !Text.IsTrimmable(r[|r| - 1])
  {
    match LabelNodeIndex(b.nodes)
    case Some(i) => Text.Trim(b.nodes[i].text)
    case None => Text.Trim(b.text)
  }

  /** The matcher `injectIntoMenu` hands to `findMenuItemButton`. */
  predicate IsTemplateLabel(caption: string)
  {
    Text.Contains(Text.ToLower(caption), TEMPLATE_TEXT)
  }

  /** An item holding a menu-item button whose label `matcher` accepts. */
  predicate Accepts(item: Item, matcher: string -> bool)
  {
    && item.button.Some?
    && item.button.value.isMenuItem
    && matcher(ButtonLabel(item.button.value))
  }

  /** An item whose button can serve as the template. */
  predicate IsTemplate(item: Item)
  {
    Accepts(item, IsTemplateLabel)
  }

  function FindFrom(menu: Menu, matcher: string -> bool, k: nat): (r: Option<nat>)
    requires k <= |menu|
    ensures r.Some? ==> k <= r.value < |menu| && Accepts(menu[r.value], matcher)
    ensures r.Some? ==> forall j :: k <= j < r.value ==> !Accepts(menu[j], matcher)
    ensures r.None? ==> forall j :: k <= j < |menu| ==> !Accepts(menu[j], matcher)
    decreases |menu| - k
  {
    if k == |menu| then None
    else if Accepts(menu[k], matcher) then Some(k)
    else FindFrom(menu, matcher, k + 1)
  }

  /** `findMenuItemButton`: the first menu-item button, in document order,
      whose label `matcher` accepts. */
  function FindMenuItemButton(menu: Menu, matcher: string -> bool): (r: Option<nat>)
    ensures r.Some? ==> r.value < |menu| && Accepts(menu[r.value], matcher)
    ensures r.Some? ==> forall j :: 0 <= j < r.value ==> !Accepts(menu[j], matcher)
    ensures r.None? <==> forall j :: 0 <= j < |menu| ==> !Accepts(menu[j], matcher)
  {
    FindFrom(menu, matcher, 0)
  }

  /** The template `injectIntoMenu` looks for: the first menu-item button
      whose lower-cased label contains `TEMPLATE_TEXT`. */
  function FindTemplate(menu: Menu): (r: Option<nat>)
    ensures r.Some? ==> r.value < |menu| && IsTemplate(menu[r.value])
    ensures r.Some? ==> forall j :: 0 <= j < r.value ==> !IsTemplate(menu[j])
    ensures r.None? <==> forall j :: 0 <= j < |menu| ==> !IsTemplate(menu[j])
  {
    FindMenuItemButton(menu, IsTemplateLabel)
  }

  /** The button with its label node, when it has one, reading
      `MENU_LABEL`. */
  function Relabel(b: Button): (r: Button)
    ensures r.isMenuItem == b.isMenuItem && r.action == b.action
    ensures LabelNodeIndex(b.nodes).Some? ==> ButtonLabel(r) == MENU_LABEL
    ensures LabelNodeIndex(b.nodes).None? ==> r == b
  {
    match LabelNodeIndex(b.nodes)
    case None => b
    case Some(i) =>
      var nodes := b.nodes[i := b.nodes[i].(text := MENU_LABEL)];
      CascadeSameAttributes(b.nodes, nodes, 0);
      MenuLabelIsTrimmed();
      b.(nodes := nodes)
  }

  lemma MenuLabelIsTrimmed()
    ensures Text.Trim(MENU_LABEL) == MENU_LABEL
  {
    assert MENU_LABEL[0] == 'C' && MENU_LABEL[|MENU_LABEL| - 1] == 'e';
    Text.TrimOfTrimmed(MENU_LABEL);
  }

  /** `createMenuItem`: a copy of the template entry carrying the marker, as
      a child of the menu, whose button carries the action marker and whose
      label node, when there is one, reads `MENU_LABEL`. */
  function CreateMenuItem(template: Item): (r: Item)
    requires template.button.Some?
    ensures r.marked && r.directChild && r.button.Some?
    ensures r.button.value.action
    ensures r.button.value.isMenuItem == template.button.value.isMenuItem
    ensures LabelNodeIndex(template.button.value.nodes).Some? ==> ButtonLabel(r.button.value) == MENU_LABEL
    ensures LabelNodeIndex(template.button.value.nodes).None? ==>
              ButtonLabel(r.button.value) == ButtonLabel(template.button.value)
  {
    Item(true, true, Some(Relabel(template.button.value).(action := true)))
  }

  predicate HasMarker(menu: Menu)
  {
    exists i :: 0 <= i < |menu| && menu[i].marked
  }

  /** Where the new entry goes: right after the template's entry when that
      is a direct child of the menu, else at the end. */
  function InsertPosition(menu: Menu, t: nat): nat
    requires t < |menu|
  {
    if menu[t].directChild then t + 1 else |menu|
  }

  /** `after` is `before` with `item` inserted at position `p`: one longer,
      every old entry kept in order. */
  predicate InsertedAt(before: Menu, after: Menu, p: nat, item: Item)
  {
    && p <= |before|
    && |after| == |before| + 1
    && after[p] == item
    && (forall j :: 0 <= j < p ==> after[j] == before[j])
    && (forall j :: p <= j < |before| ==> after[j + 1] == before[j])
  }

  /** `before` with `item` placed at position `p`. */
  function Insert(before: Menu, p: nat, item: Item): (after: Menu)
    requires p <= |before|
    ensures InsertedAt(before, after, p, item)
  {
    before[..p] + [item] + before[p..]
  }

  /** `injectIntoMenu`. Nothing happens when the menu already holds a marked
      entry or holds no template; otherwise the new entry is inserted by the
      position rule and the answer is true. */
  function Inject(menu: Menu): (r: Injection)
    ensures !r.injected ==> r.menu == menu
    ensures r.injected <==> !HasMarker(menu) && exists i :: 0 <= i < |menu| && IsTemplate(menu[i])
    ensures r.injected ==>
              var t := FindTemplate(menu).value;
              InsertedAt(menu, r.menu, InsertPosition(menu, t), CreateMenuItem(menu[t]))
  {
    if HasMarker(menu) then Injection(false, menu)
    else match FindTemplate(menu)
      case None => Injection(false, menu)
      case Some(t) =>
        Injection(true, Insert(menu, InsertPosition(menu, t), CreateMenuItem(menu[t])))
  }

  /** A second injection into the menu the first one produced changes
      nothing and answers false. */
  lemma InjectIdempotent(menu: Menu)
    ensures Inject(Inject(menu).menu) == Injection(false, Inject(menu).menu)
  {
    var r := Inject(menu);
    if r.injected {
      var t := FindTemplate(menu).value;
      var p := InsertPosition(menu, t);
      assert r.menu[p].marked;
    }
  }

  /** The number of marked entries. */
  function CountMarked(menu: Menu): nat
  {
    if |menu| == 0 then 0 else (if menu[0].marked then 1 else 0) + CountMarked(menu[1..])
  }

  lemma {:induction false} CountMarkedConcat(a: Menu, b: Menu)
    ensures CountMarked(a + b) == CountMarked(a) + CountMarked(b)
  {
    if |a| > 0 {
      assert (a + b)[0] == a[0];
      assert (a + b)[1..] == a[1..] + b;
      CountMarkedConcat(a[1..], b);
    } else {
      assert a + b == b;
    }
  }

  lemma {:induction false} CountMarkedSplice(a: Menu, item: Item, b: Menu)
    ensures CountMarked(a + [item] + b) == CountMarked(a) + (if item.marked then 1 else 0) + CountMarked(b)
  {
    CountMarkedConcat(a + [item], b);
    CountMarkedConcat(a, [item]);
    assert [item][1..] == [];
  }

  lemma {:induction false} CountMarkedInsert(before: Menu, p: nat, item: Item)
    requires p <= |before|
    ensures CountMarked(Insert(before, p, item)) == CountMarked(before) + (if item.marked then 1 else 0)
  {
    var a, b := before[..p], before[p..];
    CountMarkedSplice(a, item, b);
    CountMarkedConcat(a, b);
    assert a + b == before;
  }

  lemma {:induction false} NoMarkerCountsZero(menu: Menu)
    requires !HasMarker(menu)
    ensures CountMarked(menu) == 0
  {
    if |menu| > 0 {
      assert !HasMarker(menu[1..]) by {
        forall i | 0 <= i < |menu[1..]|
          ensures !menu[1..][i].marked
        {
          assert menu[1..][i] == menu[i + 1];
        }
      }
      NoMarkerCountsZero(menu[1..]);
    }
  }

  /** A menu never gains a second marked entry: after a successful
      injection it holds exactly one, and a menu holding at most one keeps
      at most one. */
  lemma InjectKeepsOneMarker(menu: Menu)
    ensures Inject(menu).injected ==> CountMarked(Inject(menu).menu) == 1
    ensures CountMarked(menu) <= 1 ==> CountMarked(Inject(menu).menu) <= 1
  {
    var r := Inject(menu);
    if r.injected {
      var t := FindTemplate(menu).value;
      var p := InsertPosition(menu, t);
      CountMarkedInsert(menu, p, CreateMenuItem(menu[t]));
      NoMarkerCountsZero(menu);
    }
  }
}
