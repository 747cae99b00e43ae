/** The decision logic inside `PlayerActivity.kt`: decoding the context-menu
    item strings the player hands over, grouping them and giving them ids,
    dispatching a click; collecting the views of a type in pre-order; the
    hidden text field's forwarding rule and its backspace key; and the relay
    configuration read from the launching intent, with the bridge started on
    create and stopped on destroy. Native calls appear as recorded values. */
module PlayerActivity {
  import opened Wrappers
  import opened KotlinText
  import MainActivity
  import AqwBridge

  // ---------------------------------------------------------------------
  // Context menu items
  // ---------------------------------------------------------------------

  /** One item string, decoded: `enabled separatorBefore checked caption`. */
  datatype ItemSpec = ItemSpec(enabled: bool, separatorBefore: bool, checked: bool, caption: string)

  /** Decoding one item: split on single spaces into at most four fields;
      reading `elements[3]` of a shorter array throws, which is `None`. */
  function DecodeItem(item: string): (r: Option<ItemSpec>)
    ensures r.None? <==> Occurrences(item, ' ') < 3
  {
    SplitSpacesCount(item, 4);
    var elements := SplitSpaces(item, 4);
    if |elements| < 4 then None
    else Some(ItemSpec(ToBoolean(elements[0]), ToBoolean(elements[1]), ToBoolean(elements[2]), elements[3]))
  }

  /** An item written as three flag words and a caption decodes to those
      flags and that caption, spaces in the caption included. */
  lemma DecodeWritten(enabled: string, separator: string, checked: string, caption: string)
    requires ' ' !in enabled && ' ' !in separator && ' ' !in checked
    ensures DecodeItem(enabled + " " + (separator + " " + (checked + " " + caption)))
         == Some(ItemSpec(ToBoolean(enabled), ToBoolean(separator), ToBoolean(checked), caption))
  {
    SplitSpacesFirst(checked, caption, 2);
    assert SplitSpaces(caption, 1) == [caption];
    SplitSpacesFirst(separator, checked + " " + caption, 3);
    SplitSpacesFirst(enabled, separator + " " + (checked + " " + caption), 4);
  }

  /** `items.map(decode)`, or the index of the first item whose decoding throws. */
  function DecodeItems(items: seq<string>): Result<seq<ItemSpec>, nat>
  {
    if |items| == 0 then Ok([])
    else
      var head := DecodeItem(items[0]);
      if head.None? then Err(0)
      else
        var tail := DecodeItems(items[1..]);
        if tail.Err? then Err(tail.error + 1) else Ok([head.value] + tail.value)
  }

  /** Success gives one decoding per item, in order; failure names an item
      that does not decode, with every item before it decoding. */
  lemma {:induction false} DecodeItemsSpec(items: seq<string>)
    ensures var r := DecodeItems(items);
      && (r.Ok? ==> |r.value| == |items| && forall i :: 0 <= i < |items| ==> DecodeItem(items[i]) == Some(r.value[i]))
      && (r.Err? ==> r.error < |items| && DecodeItem(items[r.error]).None?)
      && (r.Err? ==> forall i :: 0 <= i < r.error ==> DecodeItem(items[i]).Some?)
  {
    if |items| > 0 && DecodeItem(items[0]).Some? {
      DecodeItemsSpec(items[1..]);
      assert forall i :: 1 <= i < |items| ==> items[i] == items[1..][i - 1];
    }
  }

  /** Items that all decode give exactly their decodings. */
  lemma {:induction false} DecodeItemsAllOk(items: seq<string>, specs: seq<ItemSpec>)
    requires |specs| == |items|
    requires forall j :: 0 <= j < |items| ==> DecodeItem(items[j]) == Some(specs[j])
    ensures DecodeItems(items) == Ok(specs)
  {
    if |items| > 0 {
      DecodeItemsAllOk(items[1..], specs[1..]);
      assert specs == [specs[0]] + specs[1..];
    }
  }

  /** The failure reported is the first item that does not decode. */
  lemma {:induction false} DecodeItemsFirstFailure(items: seq<string>, k: nat)
    requires k < |items| && DecodeItem(items[k]).None?
    requires forall j :: 0 <= j < k ==> DecodeItem(items[j]).Some?
    ensures DecodeItems(items) == Err(k)
  {
    if k > 0 {
      DecodeItemsFirstFailure(items[1..], k - 1);
    }
  }

  /** The number of items that open a new group. */
  function Separators(specs: seq<ItemSpec>): nat
  {
    if |specs| == 0 then 0
    else (if specs[0].separatorBefore then 1 else 0) + Separators(specs[1..])
  }

  lemma {:induction false} SeparatorsConcat(a: seq<ItemSpec>, b: seq<ItemSpec>)
    ensures Separators(a + b) == Separators(a) + Separators(b)
  {
    if |a| == 0 {
      assert a + b == b;
    } else {
      assert (a + b)[1..] == a[1..] + b;
      SeparatorsConcat(a[1..], b);
    }
  }

  /** The group of item `i`: one more than the separators up to and including it. */
  function GroupOf(specs: seq<ItemSpec>, i: nat): nat
    requires i < |specs|
  {
    1 + Separators(specs[..i + 1])
  }

  /** The state of one menu entry: the arguments of `menu.add` and what the
      setters left. */
  datatype MenuItem = MenuItem(group: int, id: int, title: string, enabled: bool, checkable: bool, checked: bool)

  /** The entry `menu.add(group, id, NONE, caption)` and the setters leave
      for one decoded item. */
  function Entry(spec: ItemSpec, group: int, id: int): MenuItem
  {
    MenuItem(group, id, spec.caption, spec.enabled, spec.checked, spec.checked)
  }

  /** The `Exit` entry, added after the items with the counter's last group. */
  function ExitEntry(group: int, id: int): MenuItem
  {
    MenuItem(group, id, "Exit", true, false, false)
  }

  /** The entries for `specs` when the group counter stands at `group` and
      the next id is `id`: each item bumps the counter if it has a separator
      and takes the next id, and `Exit` follows. */
  function MenuFrom(specs: seq<ItemSpec>, group: int, id: int): (entries: seq<MenuItem>)
  {
    if |specs| == 0 then [ExitEntry(group, id)]
    else
      var g := group + (if specs[0].separatorBefore then 1 else 0);
      [Entry(specs[0], g, id)] + MenuFrom(specs[1..], g, id + 1)
  }

  /** The entries that decoded items produce, in order, followed by `Exit`. */
  function MenuEntries(specs: seq<ItemSpec>): seq<MenuItem>
  {
    MenuFrom(specs, 1, 0)
  }

  /** One entry per item, and `Exit`. */
  lemma {:induction false} MenuFromLength(specs: seq<ItemSpec>, group: int, id: int)
    ensures |MenuFrom(specs, group, id)| == |specs| + 1
  {
    if |specs| > 0 {
      MenuFromLength(specs[1..], group + (if specs[0].separatorBefore then 1 else 0), id + 1);
    }
  }

  /** Entry `i` belongs to item `i`, with id `id + i`, in the group the
      separators up to it have raised the counter to. */
  lemma {:induction false} MenuFromEntry(specs: seq<ItemSpec>, group: int, id: int, i: nat)
    requires i < |specs|
    ensures |MenuFrom(specs, group, id)| == |specs| + 1
    ensures MenuFrom(specs, group, id)[i] == Entry(specs[i], group + Separators(specs[..i + 1]), id + i)
  {
    MenuFromLength(specs, group, id);
    var g := group + (if specs[0].separatorBefore then 1 else 0);
    var prefix := specs[..i + 1];
    assert prefix[0] == specs[0];
    assert Separators(prefix) == (if specs[0].separatorBefore then 1 else 0) + Separators(prefix[1..]);
    if i == 0 {
      assert prefix[1..] == [];
    } else {
      MenuFromEntry(specs[1..], g, id + 1, i - 1);
      assert prefix[1..] == specs[1..][..i];
    }
  }

  /** `Exit` comes last, in the group all the separators have raised the
      counter to, with the id after the items'. */
  lemma {:induction false} MenuFromExit(specs: seq<ItemSpec>, group: int, id: int)
    ensures |MenuFrom(specs, group, id)| == |specs| + 1
    ensures MenuFrom(specs, group, id)[|specs|] == ExitEntry(group + Separators(specs), id + |specs|)
  {
    MenuFromLength(specs, group, id);
    if |specs| > 0 {
      MenuFromExit(specs[1..], group + (if specs[0].separatorBefore then 1 else 0), id + 1);
    }
  }

  /** The menu, entry by entry: item `i`'s entry at `i`, `Exit` after them. */
  lemma MenuEntriesAt(specs: seq<ItemSpec>)
    ensures |MenuEntries(specs)| == |specs| + 1
    ensures forall i :: 0 <= i < |specs| ==> MenuEntries(specs)[i] == Entry(specs[i], GroupOf(specs, i), i)
    ensures MenuEntries(specs)[|specs|] == ExitEntry(1 + Separators(specs), |specs|)
  {
    MenuFromLength(specs, 1, 0);
    forall i | 0 <= i < |specs| ensures MenuEntries(specs)[i] == Entry(specs[i], GroupOf(specs, i), i) {
      MenuFromEntry(specs, 1, 0, i);
    }
    MenuFromExit(specs, 1, 0);
  }

  /** `VERSION_CODES.P`. */
  const AndroidP: int := 28

  /** What `showContextMenu` ends with: the popup shown with its entries, or
      the exception thrown while decoding the item at `index`. */
  datatype MenuOutcome =
    | Shown(dividers: bool, entries: seq<MenuItem>, exitId: int)
    | Crashed(index: nat)

  /** The popup `showContextMenu(items)` builds. */
  function ContextMenu(items: seq<string>, sdkInt: int): MenuOutcome
  {
    match DecodeItems(items)
    case Err(k) => Crashed(k)
    case Ok(specs) => Shown(sdkInt >= AndroidP, MenuEntries(specs), |items|)
  }

  /** How the popup ends once `menu` is built, the counter is at `group` and
      the items `rest`, starting at index `id`, are still to be added. */
  function MenuAfter(menu: seq<MenuItem>, rest: seq<string>, group: int, id: nat, dividers: bool): MenuOutcome
  {
    match DecodeItems(rest)
    case Err(k) => Crashed(id + k)
    case Ok(specs) => Shown(dividers, menu + MenuFrom(specs, group, id), id + |rest|)
  }

  /** An item that decodes extends the menu by its entry. */
  lemma MenuAfterStep(menu: seq<MenuItem>, rest: seq<string>, group: int, id: nat, dividers: bool, spec: ItemSpec)
    requires |rest| > 0 && DecodeItem(rest[0]) == Some(spec)
    ensures var g := group + (if spec.separatorBefore then 1 else 0);
      MenuAfter(menu, rest, group, id, dividers) == MenuAfter(menu + [Entry(spec, g, id)], rest[1..], g, id + 1, dividers)
  {
    var g := group + (if spec.separatorBefore then 1 else 0);
    match DecodeItems(rest[1..])
    case Err(k) =>
    case Ok(tail) =>
      assert ([spec] + tail)[1..] == tail;
      assert menu + ([Entry(spec, g, id)] + MenuFrom(tail, g, id + 1))
          == (menu + [Entry(spec, g, id)]) + MenuFrom(tail, g, id + 1);
  }

  /** The same step, for the items from index `i` on. */
  lemma MenuAfterNext(menu: seq<MenuItem>, items: seq<string>, i: nat, group: int, dividers: bool, spec: ItemSpec)
    requires i < |items| && DecodeItem(items[i]) == Some(spec)
    ensures var g := group + (if spec.separatorBefore then 1 else 0);
      MenuAfter(menu, items[i..], group, i, dividers) == MenuAfter(menu + [Entry(spec, g, i)], items[i + 1..], g, i + 1, dividers)
  {
    MenuAfterStep(menu, items[i..], group, i, dividers, spec);
    assert items[i..][1..] == items[i + 1..];
  }

  lemma {:induction false} SeparatorsOfPrefix(specs: seq<ItemSpec>, i: nat)
    requires i < |specs|
    ensures Separators(specs[..i + 1]) == Separators(specs[..i]) + (if specs[i].separatorBefore then 1 else 0)
  {
    assert specs[..i + 1] == specs[..i] + [specs[i]];
    SeparatorsConcat(specs[..i], [specs[i]]);
    assert [specs[i]][1..] == [];
  }

  /** The body of `showContextMenu`, run on the UI thread: one entry per item
      with a running group counter, then `Exit`. */
  method ShowContextMenu(items: seq<string>, sdkInt: int) returns (outcome: MenuOutcome)
    ensures outcome == ContextMenu(items, sdkInt)
  {
    var dividers := sdkInt >= AndroidP;
    var menu: seq<MenuItem> := [];
    var group := 1;
    var i := 0;
    assert items[0..] == items;
    while i < |items|
      invariant 0 <= i <= |items| && |menu| == i
      invariant ContextMenu(items, sdkInt) == MenuAfter(menu, items[i..], group, i, dividers)
    {
      match DecodeItem(items[i])
      case None =>
        return Crashed(i);
      case Some(spec) =>
        ghost var before := group;
        if spec.separatorBefore {
          group := group + 1;
        }
        // `menu.add` appends the item; the setters then change it in place
        var item := MenuItem(group, i, spec.caption, true, false, false);
        item := item.(enabled := spec.enabled);
        if spec.checked {
          item := item.(checkable := true);
          item := item.(checked := true);
        }
        assert item == Entry(spec, group, i);
        MenuAfterNext(menu, items, i, before, dividers, spec);
        menu := menu + [item];
        i := i + 1;
    }
    assert items[i..] == [];
    menu := menu + [MenuItem(group, |items|, "Exit", true, false, false)];
    return Shown(dividers, menu, |items|);
  }

  /** Groups start at 1 and go up by exactly one at an item with
      `separatorBefore`; `Exit` shares the last item's group. */
  lemma GroupSteps(specs: seq<ItemSpec>)
    ensures |MenuEntries(specs)| == |specs| + 1
    ensures var e := MenuEntries(specs);
      && e[0].group == (if |specs| > 0 && specs[0].separatorBefore then 2 else 1)
      && (forall i :: 0 < i < |specs| ==>
            e[i].group == e[i - 1].group + (if specs[i].separatorBefore then 1 else 0))
      && (|specs| > 0 ==> e[|specs|].group == e[|specs| - 1].group)
  {
    var e := MenuEntries(specs);
    MenuEntriesAt(specs);
    if |specs| > 0 {
      SeparatorsOfPrefix(specs, 0);
      assert specs[..0] == [];
      assert specs[..|specs|] == specs;
    }
    forall i | 0 < i < |specs|
      ensures e[i].group == e[i - 1].group + (if specs[i].separatorBefore then 1 else 0)
    {
      SeparatorsOfPrefix(specs, i);
    }
  }

  /** Groups never go down along the menu, and the last one, `Exit`'s, is one
      more than the number of separators. */
  lemma GroupsOrdered(specs: seq<ItemSpec>)
    ensures |MenuEntries(specs)| == |specs| + 1
    ensures var e := MenuEntries(specs);
      && (forall i, j :: 0 <= i <= j < |e| ==> e[i].group <= e[j].group)
      && e[|specs|].group == 1 + Separators(specs)
  {
    var e := MenuEntries(specs);
    MenuEntriesAt(specs);
    forall i, j | 0 <= i <= j < |e| ensures e[i].group <= e[j].group {
      GroupsRise(specs, i, j);
    }
  }

  lemma {:induction false} GroupsRise(specs: seq<ItemSpec>, i: nat, j: nat)
    requires i <= j < |MenuEntries(specs)|
    ensures MenuEntries(specs)[i].group <= MenuEntries(specs)[j].group
    decreases j - i
  {
    var e := MenuEntries(specs);
    MenuEntriesAt(specs);
    if i < j {
      GroupsRise(specs, i + 1, j);
      if i + 1 < |specs| {
        SeparatorsOfPrefix(specs, i + 1);
      } else {
        assert specs[..i + 1] == specs;
      }
    }
  }

  /** Item `i` has id `i`, `Exit` comes last with id `items.size`, so the
      ids are distinct; items keep their captions and enabled flags. */
  lemma MenuIds(specs: seq<ItemSpec>)
    ensures |MenuEntries(specs)| == |specs| + 1
    ensures forall i :: 0 <= i < |MenuEntries(specs)| ==> MenuEntries(specs)[i].id == i
    ensures forall i, j :: 0 <= i < j < |MenuEntries(specs)| ==> MenuEntries(specs)[i].id != MenuEntries(specs)[j].id
    ensures MenuEntries(specs)[|specs|] == ExitEntry(1 + Separators(specs), |specs|)
    ensures forall i :: 0 <= i < |specs| ==>
      MenuEntries(specs)[i].title == specs[i].caption && MenuEntries(specs)[i].enabled == specs[i].enabled
  {
    MenuEntriesAt(specs);
  }

  /** Only items marked checked are checkable, and those are checked. */
  lemma CheckedOnly(specs: seq<ItemSpec>)
    ensures forall i :: 0 <= i < |MenuEntries(specs)| ==>
      (MenuEntries(specs)[i].checkable <==> i < |specs| && specs[i].checked)
    ensures forall i :: 0 <= i < |MenuEntries(specs)| ==>
      MenuEntries(specs)[i].checked == MenuEntries(specs)[i].checkable
  {
    MenuEntriesAt(specs);
  }

  /** Dividers between groups are asked for on Android P and later. */
  lemma DividersFromP(items: seq<string>, sdkInt: int)
    requires ContextMenu(items, sdkInt).Shown?
    ensures ContextMenu(items, sdkInt).dividers <==> sdkInt >= 28
    ensures ContextMenu(items, sdkInt).exitId == |items|
  {
  }

  /** The popup is shown exactly when every item has at least three spaces. */
  lemma ShownIffWellFormed(items: seq<string>, sdkInt: int)
    ensures ContextMenu(items, sdkInt).Shown? <==> forall i :: 0 <= i < |items| ==> Occurrences(items[i], ' ') >= 3
    ensures ContextMenu(items, sdkInt).Crashed? ==>
      var k := ContextMenu(items, sdkInt).index;
      && k < |items| && Occurrences(items[k], ' ') < 3
      && forall i :: 0 <= i < k ==> Occurrences(items[i], ' ') >= 3
  {
    DecodeItemsSpec(items);
  }

  // ---------------------------------------------------------------------
  // Clicks
  // ---------------------------------------------------------------------

  datatype ClickAction = Finish | RunCallback(index: int)

  /** The click listener: the exit id finishes the activity, any other id is
      handed to the player's callback. The listener always reports the click
      as consumed. */
  function OnMenuItemClick(exitId: int, itemId: int): (r: (ClickAction, bool))
    ensures r.1
  {
    if itemId == exitId then (Finish, true) else (RunCallback(itemId), true)
  }

  /** Clicking an entry of a shown menu finishes the activity iff it is
      `Exit`; any other entry runs the callback of the item it came from. */
  lemma ClickDispatch(items: seq<string>, sdkInt: int, k: nat)
    requires ContextMenu(items, sdkInt).Shown?
    requires k < |ContextMenu(items, sdkInt).entries|
    ensures var m := ContextMenu(items, sdkInt);
      var action := OnMenuItemClick(m.exitId, m.entries[k].id).0;
      && (action == Finish <==> m.entries[k].title == "Exit" && k == |items|)
      && (k < |items| ==> action == RunCallback(k))
  {
    DecodeItemsSpec(items);
    var specs := DecodeItems(items).value;
    MenuIds(specs);
  }

  // ---------------------------------------------------------------------
  // gatherAllDescendantsOfType
  // ---------------------------------------------------------------------

  /** A view: its reference, the classes it is an instance of and, for a
      `ViewGroup`, its children in child order. */
  datatype View =
    | Widget(ref: nat, classes: set<string>)
    | Group(ref: nat, classes: set<string>, children: seq<View>)

  /** The views of a tree in pre-order: the node, then each child's subtree. */
  function PreOrder(v: View): seq<View>
    decreases v, 1
  {
    match v
    case Widget(_, _) => [v]
    case Group(_, _, children) => [v] + Descendants(v, |children|)
  }

  /** The pre-orders of a group's first `k` children, one after another. */
  function Descendants(v: View, k: nat): seq<View>
    requires v.Group? && k <= |v.children|
    decreases v, 0, k
  {
    if k == 0 then [] else Descendants(v, k - 1) + PreOrder(v.children[k - 1])
  }

  /** The views among `vs` that are instances of `t`, in order, each given
      by its reference. */
  function Filter(vs: seq<View>, t: string): seq<nat>
  {
    if |vs| == 0 then [] else Filter(vs[..|vs| - 1], t) + (if t in vs[|vs| - 1].classes then [vs[|vs| - 1].ref] else [])
  }

  lemma {:induction false} FilterConcat(a: seq<View>, b: seq<View>, t: string)
    ensures Filter(a + b, t) == Filter(a, t) + Filter(b, t)
    decreases |b|
  {
    if |b| == 0 {
      assert a + b == a;
    } else {
      assert (a + b)[..|a + b| - 1] == a + b[..|b| - 1];
      FilterConcat(a, b[..|b| - 1], t);
    }
  }

  /** `gatherAllDescendantsOfType(v, t)`: the list built by adding the node
      when it matches, then, for a `ViewGroup`, appending each child's list. */
  method GatherAllDescendantsOfType(v: View, t: string) returns (result: seq<nat>)
    ensures result == Filter(PreOrder(v), t)
    decreases v, 1
  {
    result := [];
    if t in v.classes {
      result := result + [v.ref];
    }
    FilterSubtree(v, t);
    ghost var own := result;
    assert own == Filter([v], t);
    if v.Group? {
      var fromChildren := GatherFromChildren(v, t);
      result := result + fromChildren;
      assert result == own + fromChildren;
    }
  }

  /** The loop over `0 until v.childCount`, appending each child's list. */
  method GatherFromChildren(v: View, t: string) returns (result: seq<nat>)
    requires v.Group?
    ensures result == Filter(Descendants(v, |v.children|), t)
    decreases v, 0
  {
    result := [];
    var i := 0;
    while i < |v.children|
      invariant 0 <= i <= |v.children|
      invariant result == Filter(Descendants(v, i), t)
    {
      var sub := GatherAllDescendantsOfType(v.children[i], t);
      FilterConcat(Descendants(v, i), PreOrder(v.children[i]), t);
      result := result + sub;
      i := i + 1;
    }
  }

  /** The matches of a subtree: the node's own, then its descendants'. */
  lemma FilterSubtree(v: View, t: string)
    ensures Filter([v], t) == if t in v.classes then [v.ref] else []
    ensures v.Widget? ==> Filter(PreOrder(v), t) == Filter([v], t)
    ensures v.Group? ==> Filter(PreOrder(v), t) == Filter([v], t) + Filter(Descendants(v, |v.children|), t)
  {
    assert [v][..0] == [];
    if v.Group? {
      FilterConcat([v], Descendants(v, |v.children|), t);
    }
  }

  /** The matching nodes of a tree, counted without building any list. */
  function CountOfType(v: View, t: string): nat
    decreases v, 1
  {
    (if t in v.classes then 1 else 0)
    + match v
      case Widget(_, _) => 0
      case Group(_, _, children) => ChildCounts(v, |children|, t)
  }

  /** The matching nodes under a group's first `k` children. */
  function ChildCounts(v: View, k: nat, t: string): nat
    requires v.Group? && k <= |v.children|
    decreases v, 0, k
  {
    if k == 0 then 0 else ChildCounts(v, k - 1, t) + CountOfType(v.children[k - 1], t)
  }

  /** The result holds one view per matching node of the tree. */
  lemma {:induction false} GatherCount(v: View, t: string)
    ensures |Filter(PreOrder(v), t)| == CountOfType(v, t)
    decreases v, 1
  {
    FilterSubtree(v, t);
    if v.Group? {
      DescendantsCount(v, |v.children|, t);
    }
  }

  /** The same count for the subtrees of a group's first `k` children. */
  lemma {:induction false} DescendantsCount(v: View, k: nat, t: string)
    requires v.Group? && k <= |v.children|
    ensures |Filter(Descendants(v, k), t)| == ChildCounts(v, k, t)
    decreases v, 0, k
  {
    if k > 0 {
      DescendantsCount(v, k - 1, t);
      GatherCount(v.children[k - 1], t);
      FilterConcat(Descendants(v, k - 1), PreOrder(v.children[k - 1]), t);
    }
  }

  /** A matching node comes first in its own result; a non-matching one
      contributes only its descendants. */
  lemma NodeFirst(v: View, t: string)
    ensures t in v.classes ==> |Filter(PreOrder(v), t)| > 0 && Filter(PreOrder(v), t)[0] == v.ref
    ensures t !in v.classes ==> Filter(PreOrder(v), t) == Filter(PreOrder(v)[1..], t)
  {
    var rest := PreOrder(v)[1..];
    assert PreOrder(v) == [v] + rest;
    FilterConcat([v], rest, t);
    assert [v][..0] == [];
  }

  // ---------------------------------------------------------------------
  // Hidden text field and delete key
  // ---------------------------------------------------------------------

  /** What `afterTextChanged` did: the text it sent to `nativeOnTextInput`,
      if any, and the field's content afterwards (`None` for a null
      `Editable`, which `s?.clear()` leaves alone). */
  datatype TextChange = TextChange(sent: Option<string>, field: Option<string>)

  /** `s.toString()` on a nullable `Editable`: a null gives `"null"`. */
  function EditableText(s: Option<string>): string
  {
    match s
    case None => "null"
    case Some(text) => text
  }

  /** Non-empty text is sent as a whole and the field cleared; empty text
      sends nothing. */
  function AfterTextChanged(s: Option<string>): (r: TextChange)
    ensures r.sent.Some? <==> s.None? || (s.Some? && |s.value| > 0)
    ensures s.None? ==> r == TextChange(Some("null"), None)
    ensures s.Some? && |s.value| > 0 ==> r == TextChange(Some(s.value), Some(""))
    ensures s.Some? && |s.value| == 0 ==> r == TextChange(None, s)
  {
    var text := EditableText(s);
    if |text| > 0 then
      TextChange(Some(text), if s.Some? then Some("") else None)
    else
      TextChange(None, s)
  }

  /** `clear()` fires the watcher again on the empty field, which sends
      nothing, so each typed text reaches the player once. */
  lemma ClearSendsNothing(s: string)
    requires |s| > 0
    ensures AfterTextChanged(AfterTextChanged(Some(s)).field) == TextChange(None, Some(""))
  {
  }

  const KeycodeDel: int := 67
  const ActionDown: int := 0

  /** What the key listener did: whether it called `nativeOnBackspace`, and
      the value it returned (`true` consumes the event). */
  datatype KeyOutcome = KeyOutcome(backspaceSent: bool, consumed: bool)

  /** The key listener: a press of the delete key calls `nativeOnBackspace`
      and consumes the event; anything else is left to the field. */
  function OnKey(keyCode: int, action: int): (r: KeyOutcome)
    ensures r.consumed == r.backspaceSent
    ensures r.consumed ==> keyCode == 67 && action == 0
  {
    if keyCode == KeycodeDel && action == ActionDown then KeyOutcome(true, true) else KeyOutcome(false, false)
  }

  /** Only the press of delete is consumed: its release (`ACTION_UP`, 1) and
      every other key are not. */
  lemma BackspaceOnPressOnly(keyCode: int, action: int)
    ensures OnKey(keyCode, action).consumed <==> keyCode == 67 && action == 0
    ensures OnKey(67, 0) == KeyOutcome(true, true) && OnKey(67, 1) == KeyOutcome(false, false)
  {
  }

  /** One key event handed to the listener. */
  datatype KeyEvent = KeyEvent(keyCode: int, action: int)

  /** The `nativeOnBackspace` calls the listener makes over a run of events. */
  function Backspaces(events: seq<KeyEvent>): nat
  {
    if |events| == 0 then 0
    else (if OnKey(events[0].keyCode, events[0].action).backspaceSent then 1 else 0) + Backspaces(events[1..])
  }

  /** The player hears one backspace per press of delete among the events,
      however presses, releases and other keys are interleaved. */
  lemma {:induction false} BackspacesCountPresses(events: seq<KeyEvent>)
    ensures Backspaces(events) == multiset(events)[KeyEvent(KeycodeDel, ActionDown)]
  {
    if |events| > 0 {
      BackspacesCountPresses(events[1..]);
      assert events == [events[0]] + events[1..];
      assert multiset(events) == multiset([events[0]]) + multiset(events[1..]);
    }
  }

  // ---------------------------------------------------------------------
  // The bridge configuration and the bridge's lifetime
  // ---------------------------------------------------------------------

  /** The arguments of `AqwBridge(8181, host, port)`. */
  datatype BridgeConfig = BridgeConfig(localPort: int, targetHost: string, targetPort: int)

  const LocalPort: int := 8181
  const DefaultHost: string := "socket.aq.com"
  const DefaultPort: int := 5588

  /** `getStringExtra("aqw_host") ?: "socket.aq.com"` and
      `getIntExtra("aqw_port", 5588)`: an extra that is missing or holds a
      value of the other type gives the default. */
  function ConfigFromExtras(extras: map<string, MainActivity.Extra>): (c: BridgeConfig)
    ensures c.localPort == 8181
    ensures c.targetHost == "socket.aq.com" <==>
      !(MainActivity.HostExtra in extras && extras[MainActivity.HostExtra].StringExtra?)
      || extras[MainActivity.HostExtra].s == "socket.aq.com"
    ensures MainActivity.HostExtra in extras && extras[MainActivity.HostExtra].StringExtra? ==>
      c.targetHost == extras[MainActivity.HostExtra].s
    ensures MainActivity.PortExtra in extras && extras[MainActivity.PortExtra].IntExtra? ==>
      c.targetPort == extras[MainActivity.PortExtra].n
    ensures !(MainActivity.PortExtra in extras && extras[MainActivity.PortExtra].IntExtra?) ==>
      c.targetPort == 5588
  {
    var host :=
      if MainActivity.HostExtra in extras && extras[MainActivity.HostExtra].StringExtra?
      then extras[MainActivity.HostExtra].s else DefaultHost;
    var port :=
      if MainActivity.PortExtra in extras && extras[MainActivity.PortExtra].IntExtra?
      then extras[MainActivity.PortExtra].n else DefaultPort;
    BridgeConfig(LocalPort, host, port)
  }

  /** Started without extras, the player relays to the default server. */
  lemma DefaultsWithoutExtras()
    ensures ConfigFromExtras(map[]) == BridgeConfig(8181, "socket.aq.com", 5588)
  {
  }

  /** Launching any server button configures the relay for exactly that
      server: the configured target formats back to the button's entry. */
  lemma LaunchedConfig(i: nat)
    requires i < |MainActivity.ServerEntries|
    ensures var r := MainActivity.LaunchGame(MainActivity.ServerEntries[i].1);
      && r.Ok?
      && var c := ConfigFromExtras(r.value.extras);
      && c.localPort == 8181
      && MainActivity.FormatAddress(MainActivity.Address(c.targetHost, c.targetPort)) == MainActivity.ServerEntries[i].1
  {
    MainActivity.EveryButtonLaunches();
    MainActivity.ButtonsFollowTable();
  }

  /** A forwarded session of the bridge configured from the extras opens its
      one upstream connection to the configured server, and forwards the
      first bytes there. */
  lemma ConfiguredForward(extras: map<string, MainActivity.Extra>, buffer: seq<AqwBridge.Byte>, read: int)
    requires |buffer| == AqwBridge.BufferSize && 0 <= read <= AqwBridge.BufferSize
    requires !AqwBridge.Occurs(AqwBridge.PolicyRequest(), buffer[..read])
    ensures var c := ConfigFromExtras(extras);
      AqwBridge.HandleConnection(c.targetHost, c.targetPort, buffer, AqwBridge.ReadReturned(read), None)
      == [AqwBridge.OpenUpstream(c.targetHost, c.targetPort), AqwBridge.WriteUpstream(buffer[..read]),
          AqwBridge.StartCopy(AqwBridge.ClientToUpstream), AqwBridge.StartCopy(AqwBridge.UpstreamToClient)]
  {
    var c := ConfigFromExtras(extras);
    AqwBridge.ForwardPlan(c.targetHost, c.targetPort, buffer, read);
  }

  /** Launching a server button and then forwarding a session connects
      upstream to exactly that button's host and port. */
  lemma LaunchedForward(i: nat, buffer: seq<AqwBridge.Byte>, read: int)
    requires i < |MainActivity.ServerEntries|
    requires |buffer| == AqwBridge.BufferSize && 0 <= read <= AqwBridge.BufferSize
    requires !AqwBridge.Occurs(AqwBridge.PolicyRequest(), buffer[..read])
    ensures var r := MainActivity.LaunchGame(MainActivity.ServerEntries[i].1);
      && r.Ok?
      && var c := ConfigFromExtras(r.value.extras);
      && var trace := AqwBridge.HandleConnection(c.targetHost, c.targetPort, buffer, AqwBridge.ReadReturned(read), None);
      && trace[0].OpenUpstream?
      && MainActivity.FormatAddress(MainActivity.Address(trace[0].host, trace[0].port)) == MainActivity.ServerEntries[i].1
  {
    LaunchedConfig(i);
    ConfiguredForward(MainActivity.LaunchGame(MainActivity.ServerEntries[i].1).value.extras, buffer, read);
  }

  /** The activity's hold on the relay. */
  class Player {
    var aqwBridge: Option<AqwBridge.Bridge>

    constructor ()
      ensures aqwBridge.None?
    {
      aqwBridge := None;
    }

    /** The bridge part of `onCreate`: build the bridge from the intent's
        extras and start it. */
    method OnCreate(extras: map<string, MainActivity.Extra>)
      modifies this
      ensures aqwBridge.Some? && fresh(aqwBridge.value)
      ensures var b := aqwBridge.value;
        && BridgeConfig(b.localPort, b.targetHost, b.targetPort) == ConfigFromExtras(extras)
        && b.State() == AqwBridge.Started(AqwBridge.Created)
    {
      var c := ConfigFromExtras(extras);
      var b := new AqwBridge.Bridge(c.localPort, c.targetHost, c.targetPort);
      b.Start();
      aqwBridge := Some(b);
    }

    /** `onDestroy`: `aqwBridge?.stop()`. */
    method OnDestroy()
      modifies if aqwBridge.Some? then {aqwBridge.value} else {}
      ensures aqwBridge == old(aqwBridge)
      ensures aqwBridge.Some? ==> aqwBridge.value.State() == AqwBridge.Stopped(old(aqwBridge.value.State()))
    {
      match aqwBridge
      case None =>
      case Some(b) => b.Stop();
    }
  }
}
