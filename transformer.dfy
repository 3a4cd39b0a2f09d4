/** The attribute rewrite of `transformSvg` (packages/client/src/transformer.ts).

    A cheerio element keeps its attributes as a JavaScript object: an ordered
    list of distinct names, where setting an existing name overwrites it in
    place and setting a new one appends it. The document is a table of nodes
    in document order whose tags, texts and parent links are constants, so
    only attribute lists can change. */
module Transformer {
  import opened Wrappers
  import opened Sequences

  datatype Attr = Attr(name: string, value: string)

  type Attrs = seq<Attr>

  predicate DistinctNames(a: Attrs) {
    forall i, j :: 0 <= i < j < |a| ==> a[i].name != a[j].name
  }

  /** `el.attribs[name]`. */
  function Lookup(a: Attrs, name: string): Option<string> {
    if a == [] then None
    else if a[0].name == name then Some(a[0].value)
    else Lookup(a[1..], name)
  }

  lemma {:induction false} LookupNone(a: Attrs, name: string)
    ensures Lookup(a, name).None? <==> forall i :: 0 <= i < |a| ==> a[i].name != name
  {
    if a != [] {
      LookupNone(a[1..], name);
      assert forall i :: 1 <= i < |a| ==> a[1..][i - 1] == a[i];
    }
  }

  /** cheerio's `attr(name, value)`: overwrite in place, or append. */
  function SetAttr(a: Attrs, name: string, value: string): (r: Attrs)
    ensures forall t :: Lookup(r, t) == if t == name then Some(value) else Lookup(a, t)
    ensures Lookup(a, name).None? ==> r == a + [Attr(name, value)]
    ensures Lookup(a, name).Some? ==> |r| == |a| && forall i :: 0 <= i < |a| ==> r[i].name == a[i].name
  {
    if a == [] then [Attr(name, value)]
    else if a[0].name == name then [Attr(name, value)] + a[1..]
    else
      var rest := SetAttr(a[1..], name, value);
      assert a == [a[0]] + a[1..];
      assert forall i :: 1 <= i < |a| ==> a[1..][i - 1] == a[i];
      [a[0]] + rest
  }

  /** Setting an attribute never duplicates a name. */
  lemma SetAttrKeepsDistinct(a: Attrs, name: string, value: string)
    ensures DistinctNames(a) ==> DistinctNames(SetAttr(a, name, value))
  {
    var r := SetAttr(a, name, value);
    if DistinctNames(a) {
      if Lookup(a, name).None? {
        LookupNone(a, name);
        assert forall i :: 0 <= i < |a| ==> r[i] == a[i] && a[i].name != name;
        assert r[|a|].name == name;
      } else {
        assert forall i :: 0 <= i < |r| ==> r[i].name == a[i].name;
      }
    }
  }

  /** cheerio's `removeAttr(name)`. */
  function RemoveAttr(a: Attrs, name: string): (r: Attrs)
    ensures forall t :: Lookup(r, t) == if t == name then None else Lookup(a, t)
    ensures DistinctNames(a) ==> DistinctNames(r)
  {
    if a == [] then []
    else
      var rest := RemoveAttr(a[1..], name);
      if a[0].name == name then rest
      else
        LookupNone(a[1..], a[0].name);
        LookupNone(rest, a[0].name);
        [a[0]] + rest
  }

  /** Removing an attribute keeps every other entry, in the order it had. */
  lemma {:induction false} RemoveAttrIsFilter(a: Attrs, name: string)
    ensures RemoveAttr(a, name) == Filter(a, (x: Attr) => x.name != name)
  {
    if a != [] {
      RemoveAttrIsFilter(a[1..], name);
    }
  }

  // ---------------------------------------------------------------------
  // The per-attribute rule of transformAttributes
  // ---------------------------------------------------------------------

  /** The converted name: `class` becomes `className`, any other name goes
      through camelCase. */
  function Target(camelCase: string -> string, name: string): string {
    if name == "class" then "className" else camelCase(name)
  }

  predicate Dropped(converted: string) {
    converted == "xmlns" || converted == "version"
  }

  /** The attribute is written again under a different name. */
  predicate Renamed(camelCase: string -> string, name: string) {
    !Dropped(Target(camelCase, name)) && Target(camelCase, name) != name
  }

  /** The rule leaves the attribute where it is: its converted name is its
      own name and is not dropped. */
  predicate Stable(camelCase: string -> string, name: string) {
    !Dropped(Target(camelCase, name)) && Target(camelCase, name) == name
  }

  /** The value under `t` after the entry `e` is processed: the entry's
      value under its converted name when it is renamed, nothing under its
      own name when it is dropped or renamed away, and otherwise what was
      there before. */
  function StepLookup(camelCase: string -> string, cur: Attrs, e: Attr, t: string): Option<string> {
    if Renamed(camelCase, e.name) && t == Target(camelCase, e.name) then Some(e.value)
    else if t == e.name && !Stable(camelCase, e.name) then None
    else Lookup(cur, t)
  }

  /** One iteration of the loop, for the snapshot entry `e`. */
  function Step(camelCase: string -> string, cur: Attrs, e: Attr): (r: Attrs)
    ensures forall t :: Lookup(r, t) == StepLookup(camelCase, cur, e, t)
    ensures DistinctNames(cur) ==> DistinctNames(r)
  {
    var newKey := Target(camelCase, e.name);
    if Dropped(newKey) then RemoveAttr(cur, e.name)
    else if newKey != e.name then
      SetAttrKeepsDistinct(cur, newKey, e.value);
      RemoveAttr(SetAttr(cur, newKey, e.value), e.name)
    else cur
  }

  /** The loop over the snapshot entries `es`, starting from `cur`. */
  function ApplyAll(camelCase: string -> string, cur: Attrs, es: seq<Attr>): Attrs {
    if es == [] then cur
    else Step(camelCase, ApplyAll(camelCase, cur, es[..|es| - 1]), es[|es| - 1])
  }

  /** transformAttributes: every entry of `Object.entries(attribs)`, taken
      before the loop starts, is visited once, in order. */
  function RewriteAttrs(camelCase: string -> string, a: Attrs): (r: Attrs)
    ensures DistinctNames(a) ==> DistinctNames(r)
    ensures AllStable(camelCase, a) ==> r == a
  {
    ApplyAllKeepsDistinct(camelCase, a, a);
    assert AllStable(camelCase, a) ==> ApplyAll(camelCase, a, a) == a by {
      if AllStable(camelCase, a) {
        ApplyAllStableIdentity(camelCase, a, a);
      }
    }
    ApplyAll(camelCase, a, a)
  }

  lemma {:induction false} ApplyAllKeepsDistinct(camelCase: string -> string, cur: Attrs, es: seq<Attr>)
    ensures DistinctNames(cur) ==> DistinctNames(ApplyAll(camelCase, cur, es))
  {
    if es != [] {
      ApplyAllKeepsDistinct(camelCase, cur, es[..|es| - 1]);
    }
  }

  /** The entry `e` writes or deletes the attribute named `t`. */
  predicate Touches(camelCase: string -> string, e: Attr, t: string) {
    (Renamed(camelCase, e.name) && Target(camelCase, e.name) == t) ||
    (e.name == t && !Stable(camelCase, e.name))
  }

  // ---------------------------------------------------------------------
  // What the loop does to the value under one name
  // ---------------------------------------------------------------------

  /** A name no entry touches keeps the value it had before the loop. */
  lemma {:induction false} ApplyAllUntouched(camelCase: string -> string, cur: Attrs, es: seq<Attr>, t: string)
    requires forall i :: 0 <= i < |es| ==> !Touches(camelCase, es[i], t)
    ensures Lookup(ApplyAll(camelCase, cur, es), t) == Lookup(cur, t)
  {
    if es != [] {
      ApplyAllUntouched(camelCase, cur, es[..|es| - 1], t);
    }
  }

  /** A name ends up with whatever the last entry that touches it did: the
      renamed value when that entry renames onto it, and nothing when that
      entry is the attribute itself being dropped or renamed away. */
  lemma {:induction false} ApplyAllLastTouch(camelCase: string -> string, cur: Attrs, es: seq<Attr>, t: string, i: nat)
    requires i < |es| && Touches(camelCase, es[i], t)
    requires forall j :: i < j < |es| ==> !Touches(camelCase, es[j], t)
    ensures Lookup(ApplyAll(camelCase, cur, es), t) ==
      if es[i].name == t then None else Some(es[i].value)
  {
    if i < |es| - 1 {
      ApplyAllLastTouch(camelCase, cur, es[..|es| - 1], t, i);
    }
  }

  /** The entries of a list with distinct names that touch `t` are at most
      the attribute named `t` and the ones renamed onto `t`. */
  lemma TouchOfOwnName(camelCase: string -> string, a: Attrs, j: nat, t: string)
    requires DistinctNames(a) && j < |a| && a[j].name == t
    ensures forall m :: 0 <= m < |a| && m != j && Touches(camelCase, a[m], t) ==>
      Renamed(camelCase, a[m].name) && Target(camelCase, a[m].name) == t
  {
  }

  // ---------------------------------------------------------------------
  // The rules of transformAttributes, for a list with distinct names
  // ---------------------------------------------------------------------

  /** `class` ends up as `className` with the same value, unless a later
      attribute is also renamed onto `className`; `class` itself is gone
      unless a later attribute is renamed onto `class`. */
  lemma ClassBecomesClassName(camelCase: string -> string, a: Attrs, i: nat)
    requires DistinctNames(a) && i < |a| && a[i].name == "class"
    requires camelCase("className") == "className"
    requires forall j :: i < j < |a| ==> !(Renamed(camelCase, a[j].name) && Target(camelCase, a[j].name) == "className")
    requires forall j :: i < j < |a| ==> !(Renamed(camelCase, a[j].name) && Target(camelCase, a[j].name) == "class")
    ensures Lookup(RewriteAttrs(camelCase, a), "className") == Some(a[i].value)
    ensures Lookup(RewriteAttrs(camelCase, a), "class") == None
  {
    ApplyAllLastTouch(camelCase, a, a, "className", i);
    ApplyAllLastTouch(camelCase, a, a, "class", i);
  }

  /** An existing `className` that stays in place is overwritten by the
      renamed `class`: `[class=v, className=w]` ends with `className=v` and
      no `class`. */
  lemma ClassOverwritesClassName(camelCase: string -> string, v: string, w: string)
    requires camelCase("className") == "className"
    ensures Lookup(RewriteAttrs(camelCase, [Attr("class", v), Attr("className", w)]), "className") == Some(v)
    ensures Lookup(RewriteAttrs(camelCase, [Attr("class", v), Attr("className", w)]), "class") == None
  {
    var a := [Attr("class", v), Attr("className", w)];
    assert !Renamed(camelCase, a[1].name);
    ClassBecomesClassName(camelCase, a, 0);
  }

  /** An attribute whose converted name is `xmlns` or `version` is removed,
      unless a later attribute is renamed onto its name. */
  lemma DroppedAttrRemoved(camelCase: string -> string, a: Attrs, i: nat)
    requires DistinctNames(a) && i < |a| && Dropped(Target(camelCase, a[i].name))
    requires forall j :: i < j < |a| ==> !(Renamed(camelCase, a[j].name) && Target(camelCase, a[j].name) == a[i].name)
    ensures Lookup(RewriteAttrs(camelCase, a), a[i].name) == None
  {
    TouchOfOwnName(camelCase, a, i, a[i].name);
    ApplyAllLastTouch(camelCase, a, a, a[i].name, i);
  }

  /** An attribute whose converted name is its own name keeps its value,
      unless some other attribute is renamed onto it. */
  lemma StableAttrKept(camelCase: string -> string, a: Attrs, i: nat)
    requires DistinctNames(a) && i < |a| && Stable(camelCase, a[i].name)
    requires forall j :: 0 <= j < |a| ==> !(Renamed(camelCase, a[j].name) && Target(camelCase, a[j].name) == a[i].name)
    ensures Lookup(RewriteAttrs(camelCase, a), a[i].name) == Some(a[i].value)
  {
    TouchOfOwnName(camelCase, a, i, a[i].name);
    ApplyAllUntouched(camelCase, a, a, a[i].name);
    assert Lookup(a, a[i].name) == Some(a[i].value) by {
      LookupDistinct(a, i);
    }
  }

  lemma {:induction false} LookupDistinct(a: Attrs, i: nat)
    requires DistinctNames(a) && i < |a|
    ensures Lookup(a, a[i].name) == Some(a[i].value)
  {
    if i > 0 {
      assert a[1..][i - 1] == a[i];
      LookupDistinct(a[1..], i - 1);
    }
  }

  /** On a collision the rename wins: when an attribute is renamed onto the
      name of another attribute that is itself left in place, the renamed
      value replaces the existing one, whichever of the two comes first. */
  lemma RenameWinsCollision(camelCase: string -> string, a: Attrs, i: nat, j: nat)
    requires DistinctNames(a) && i < |a| && j < |a|
    requires Renamed(camelCase, a[i].name) && a[j].name == Target(camelCase, a[i].name)
    requires Stable(camelCase, a[j].name)
    requires forall m :: 0 <= m < |a| && m != i ==>
      !(Renamed(camelCase, a[m].name) && Target(camelCase, a[m].name) == a[j].name)
    ensures Lookup(a, a[j].name) == Some(a[j].value)
    ensures Lookup(RewriteAttrs(camelCase, a), a[j].name) == Some(a[i].value)
  {
    LookupDistinct(a, j);
    TouchOfOwnName(camelCase, a, j, a[j].name);
    ApplyAllLastTouch(camelCase, a, a, a[j].name, i);
  }

  // ---------------------------------------------------------------------
  // Idempotence
  // ---------------------------------------------------------------------

  /** What idempotence needs of camelCase: it is idempotent, it leaves
      `className` alone, and it produces `class` from no other name. */
  ghost predicate CamelCaseAssumptions(camelCase: string -> string) {
    (forall s :: camelCase(camelCase(s)) == camelCase(s)) &&
    camelCase("className") == "className" &&
    (forall s :: s != "class" ==> camelCase(s) != "class")
  }

  /** Every name an attribute can be renamed onto is left in place by the rule. */
  ghost predicate RenameTargetsStable(camelCase: string -> string) {
    forall name :: Renamed(camelCase, name) ==> Stable(camelCase, Target(camelCase, name))
  }

  lemma AssumptionsGiveStableTargets(camelCase: string -> string)
    requires CamelCaseAssumptions(camelCase)
    ensures RenameTargetsStable(camelCase)
  {
    forall name | Renamed(camelCase, name)
      ensures Stable(camelCase, Target(camelCase, name))
    {
      if name != "class" {
        assert camelCase(camelCase(name)) == camelCase(name);
        assert camelCase(name) != "class";
      }
    }
  }

  predicate AllStable(camelCase: string -> string, a: Attrs) {
    forall i :: 0 <= i < |a| ==> Stable(camelCase, a[i].name)
  }

  lemma {:induction false} LookupSomeHasEntry(a: Attrs, t: string)
    requires Lookup(a, t).Some?
    ensures exists i :: 0 <= i < |a| && a[i].name == t
  {
    if a[0].name != t {
      LookupSomeHasEntry(a[1..], t);
      var i :| 0 <= i < |a[1..]| && a[1..][i].name == t;
      assert a[i + 1].name == t;
    }
  }

  lemma LookupNotNone(a: Attrs, i: nat)
    requires i < |a|
    ensures Lookup(a, a[i].name).Some?
  {
    LookupNone(a, a[i].name);
  }

  /** A name present after one step is left in place by the rule, or was
      already present under another entry's name. */
  lemma StepPendingOrStable(camelCase: string -> string, before: Attrs, e: Attr, t: string)
    requires RenameTargetsStable(camelCase)
    requires Lookup(Step(camelCase, before, e), t).Some?
    ensures Stable(camelCase, t) || (t != e.name && Lookup(before, t).Some?)
  {
    assert StepLookup(camelCase, before, e, t).Some?;
    if Renamed(camelCase, e.name) && t == Target(camelCase, e.name) {
      assert Stable(camelCase, t);
    }
  }

  /** While the loop runs, every name present is either left in place by
      the rule or still waiting for its own entry. */
  lemma {:induction false} ApplyAllPendingOrStable(camelCase: string -> string, a: Attrs, k: nat, t: string)
    requires RenameTargetsStable(camelCase) && k <= |a|
    requires Lookup(ApplyAll(camelCase, a, a[..k]), t).Some?
    ensures Stable(camelCase, t) || exists j :: k <= j < |a| && a[j].name == t
  {
    if k == 0 {
      assert a[..0] == [];
      LookupSomeHasEntry(a, t);
    } else {
      var before := ApplyAll(camelCase, a, a[..k - 1]);
      assert a[..k][..k - 1] == a[..k - 1] && a[..k][k - 1] == a[k - 1];
      assert ApplyAll(camelCase, a, a[..k]) == Step(camelCase, before, a[k - 1]);
      StepPendingOrStable(camelCase, before, a[k - 1], t);
      if !Stable(camelCase, t) {
        assert t != a[k - 1].name && Lookup(before, t).Some?;
        ApplyAllPendingOrStable(camelCase, a, k - 1, t);
        var j :| k - 1 <= j < |a| && a[j].name == t;
        assert j != k - 1;
      }
    }
  }

  /** After the rewrite every name present is left in place by the rule. */
  lemma RewriteAllStable(camelCase: string -> string, a: Attrs)
    requires RenameTargetsStable(camelCase)
    ensures AllStable(camelCase, RewriteAttrs(camelCase, a))
  {
    var r := RewriteAttrs(camelCase, a);
    assert a[..|a|] == a;
    forall i | 0 <= i < |r| ensures Stable(camelCase, r[i].name) {
      LookupNotNone(r, i);
      ApplyAllPendingOrStable(camelCase, a, |a|, r[i].name);
    }
  }

  /** Entries that the rule leaves in place change nothing. */
  lemma {:induction false} ApplyAllStableIdentity(camelCase: string -> string, cur: Attrs, es: seq<Attr>)
    requires AllStable(camelCase, es)
    ensures ApplyAll(camelCase, cur, es) == cur
  {
    if es != [] {
      ApplyAllStableIdentity(camelCase, cur, es[..|es| - 1]);
    }
  }

  /** Rewriting twice is rewriting once. */
  lemma RewriteIdempotent(camelCase: string -> string, a: Attrs)
    requires CamelCaseAssumptions(camelCase)
    ensures RewriteAttrs(camelCase, RewriteAttrs(camelCase, a)) == RewriteAttrs(camelCase, a)
  {
    var r := RewriteAttrs(camelCase, a);
    AssumptionsGiveStableTargets(camelCase);
    RewriteAllStable(camelCase, a);
    ApplyAllStableIdentity(camelCase, r, r);
  }

  /** A lone attribute that the rule renames ends up alone under its new
      name. */
  lemma RewriteSingleRenamed(camelCase: string -> string, name: string, value: string)
    requires Renamed(camelCase, name)
    ensures RewriteAttrs(camelCase, [Attr(name, value)]) == [Attr(Target(camelCase, name), value)]
  {
    var a := [Attr(name, value)];
    var target := Target(camelCase, name);
    assert a[..|a| - 1] == [];
    assert ApplyAll(camelCase, a, a[..|a| - 1]) == a;
    assert RewriteAttrs(camelCase, a) == Step(camelCase, a, a[0]);
    var written := SetAttr(a, target, value);
    assert Step(camelCase, a, a[0]) == RemoveAttr(written, name);
    assert written == [Attr(name, value), Attr(target, value)];
    assert written[1..] == [Attr(target, value)] && written[1..][1..] == [];
    assert RemoveAttr(written[1..], name) == [Attr(target, value)];
  }

  /** A renamed attribute is appended under its new name, so it moves behind
      an attribute that followed it and stays where it is. */
  lemma RenamedMovesToEnd(camelCase: string -> string, n: string, v: string, m: string, w: string)
    requires Renamed(camelCase, n) && Stable(camelCase, m)
    requires n != m && Target(camelCase, n) != m
    ensures RewriteAttrs(camelCase, [Attr(n, v), Attr(m, w)]) == [Attr(m, w), Attr(Target(camelCase, n), v)]
  {
    var a := [Attr(n, v), Attr(m, w)];
    var t := Target(camelCase, n);
    assert a[..1] == [a[0]] && a[..1][..0] == [];
    assert ApplyAll(camelCase, a, a[..1]) == Step(camelCase, a, a[0]);
    assert Lookup(a, t) == None by {
      assert t != n;
      assert a[1..] == [Attr(m, w)] && a[1..][1..] == [];
      assert Lookup(a[1..][1..], t) == None;
      assert Lookup(a[1..], t) == None;
    }
    var written := SetAttr(a, t, v);
    assert written == [Attr(n, v), Attr(m, w), Attr(t, v)];
    assert written[1..] == [Attr(m, w), Attr(t, v)];
    assert written[1..][1..] == [Attr(t, v)] && written[1..][1..][1..] == [];
    assert RemoveAttr(written[1..][1..], n) == [Attr(t, v)];
    assert RemoveAttr(written[1..], n) == [Attr(m, w)] + [Attr(t, v)];
    assert RemoveAttr(written, n) == [Attr(m, w), Attr(t, v)];
    assert ApplyAll(camelCase, a, a) == Step(camelCase, [Attr(m, w), Attr(t, v)], a[1]);
  }

  /** A camelCase that is idempotent and leaves `className` alone but turns
      `Class` into `class`, as the `camelcase` package does. */
  function LowersClass(s: string): string {
    if s == "Class" then "class" else s
  }

  /** The third assumption cannot be dropped: under LowersClass a lone
      `Class` attribute becomes `class` on the first run and `className` on
      the second. */
  lemma RewriteNotIdempotentWhenClassProduced()
    ensures (forall s :: LowersClass(LowersClass(s)) == LowersClass(s)) && LowersClass("className") == "className"
    ensures RewriteAttrs(LowersClass, [Attr("Class", "x")]) == [Attr("class", "x")]
    ensures RewriteAttrs(LowersClass, RewriteAttrs(LowersClass, [Attr("Class", "x")])) == [Attr("className", "x")]
  {
    assert Target(LowersClass, "Class") == "class";
    RewriteSingleRenamed(LowersClass, "Class", "x");
    assert Target(LowersClass, "class") == "className";
    RewriteSingleRenamed(LowersClass, "class", "x");
  }

  // ---------------------------------------------------------------------
  // transformSvg over the whole document
  // ---------------------------------------------------------------------

  /** Removing `width` and `height`. */
  function StripSize(a: Attrs): (r: Attrs)
    ensures Lookup(r, "width") == None && Lookup(r, "height") == None
    ensures forall t :: t != "width" && t != "height" ==> Lookup(r, t) == Lookup(a, t)
  {
    RemoveAttr(RemoveAttr(a, "width"), "height")
  }

  /** Stripping the size keeps every other entry, in the order it had. */
  lemma {:induction false} StripSizeIsFilter(a: Attrs)
    ensures StripSize(a) == Filter(a, (x: Attr) => x.name != "width" && x.name != "height")
  {
    if a != [] {
      StripSizeIsFilter(a[1..]);
      var w := RemoveAttr(a, "width");
      if a[0].name != "width" {
        assert w[0] == a[0] && w[1..] == RemoveAttr(a[1..], "width");
      }
    }
  }

  /** Removing a name that is absent changes nothing. */
  lemma {:induction false} RemoveAbsent(a: Attrs, name: string)
    requires Lookup(a, name).None?
    ensures RemoveAttr(a, name) == a
  {
    if a != [] {
      RemoveAbsent(a[1..], name);
    }
  }

  lemma StripSizeTwice(a: Attrs)
    ensures StripSize(StripSize(a)) == StripSize(a)
  {
    var s := StripSize(a);
    RemoveAbsent(s, "width");
    RemoveAbsent(s, "height");
  }

  /** Removing an attribute keeps every other entry as it was. */
  lemma {:induction false} RemoveAttrKeepsStable(camelCase: string -> string, a: Attrs, name: string)
    requires AllStable(camelCase, a)
    ensures AllStable(camelCase, RemoveAttr(a, name))
  {
    if a != [] {
      RemoveAttrKeepsStable(camelCase, a[1..], name);
    }
  }

  lemma StripSizeKeepsStable(camelCase: string -> string, a: Attrs)
    requires AllStable(camelCase, a)
    ensures AllStable(camelCase, StripSize(a))
  {
    RemoveAttrKeepsStable(camelCase, a, "width");
    RemoveAttrKeepsStable(camelCase, RemoveAttr(a, "width"), "height");
  }

  /** The attributes of one node after transformSvg: the `$("svg")` pass for
      an `svg` element, the `.find("*")` pass for an element inside an
      `svg`, then the size strip for an `svg` element. A nested `svg` gets
      both passes. */
  function TransformedAttrs(camelCase: string -> string, isSvg: bool, insideSvg: bool, a: Attrs): (r: Attrs)
    ensures isSvg ==> Lookup(r, "width") == None && Lookup(r, "height") == None
    ensures !isSvg && !insideSvg ==> r == a
    ensures DistinctNames(a) ==> DistinctNames(r)
  {
    var first := if isSvg then RewriteAttrs(camelCase, a) else a;
    var second := if insideSvg then RewriteAttrs(camelCase, first) else first;
    if isSvg then StripSize(second) else second
  }

  /** The same rule applies at every depth: every `svg` element and every
      element inside one ends up rewritten exactly once, whether it was
      visited once or twice. */
  lemma SameRuleAtEveryDepth(camelCase: string -> string, isSvg: bool, insideSvg: bool, a: Attrs)
    requires CamelCaseAssumptions(camelCase)
    ensures TransformedAttrs(camelCase, isSvg, insideSvg, a) ==
      if isSvg then StripSize(RewriteAttrs(camelCase, a))
      else if insideSvg then RewriteAttrs(camelCase, a)
      else a
  {
    if isSvg && insideSvg {
      RewriteIdempotent(camelCase, a);
    }
  }

  /** Without the assumptions the two depths part ways: when camelCase
      lowers `Class` to `class`, a top-level `svg` keeps `class` while a
      nested one, rewritten twice, ends with `className`. */
  lemma NestedSvgDiffersWhenClassProduced()
    ensures TransformedAttrs(LowersClass, true, false, [Attr("Class", "x")]) == [Attr("class", "x")]
    ensures TransformedAttrs(LowersClass, true, true, [Attr("Class", "x")]) == [Attr("className", "x")]
  {
    RewriteNotIdempotentWhenClassProduced();
    RemoveAbsent([Attr("class", "x")], "width");
    RemoveAbsent([Attr("class", "x")], "height");
    RemoveAbsent([Attr("className", "x")], "width");
    RemoveAbsent([Attr("className", "x")], "height");
  }

  /** Running transformSvg on its own output changes nothing. */
  lemma TransformIdempotent(camelCase: string -> string, isSvg: bool, insideSvg: bool, a: Attrs)
    requires CamelCaseAssumptions(camelCase)
    ensures TransformedAttrs(camelCase, isSvg, insideSvg, TransformedAttrs(camelCase, isSvg, insideSvg, a)) ==
      TransformedAttrs(camelCase, isSvg, insideSvg, a)
  {
    var once := TransformedAttrs(camelCase, isSvg, insideSvg, a);
    SameRuleAtEveryDepth(camelCase, isSvg, insideSvg, a);
    SameRuleAtEveryDepth(camelCase, isSvg, insideSvg, once);
    var r := RewriteAttrs(camelCase, a);
    if isSvg {
      AssumptionsGiveStableTargets(camelCase);
      RewriteAllStable(camelCase, a);
      StripSizeKeepsStable(camelCase, r);
      ApplyAllStableIdentity(camelCase, once, once);
      StripSizeTwice(r);
    } else if insideSvg {
      RewriteIdempotent(camelCase, a);
    }
  }

  // ---------------------------------------------------------------------
  // The document as a value
  // ---------------------------------------------------------------------

  datatype NodeKind = ElementNode(tag: string) | TextNode(text: string)

  /** A loaded document as a value: for each node, in document order, its
      kind, the index of its parent (-1 for a top-level node) and its
      attribute list. */
  datatype Tree = Tree(kinds: seq<NodeKind>, parents: seq<int>, attribs: seq<Attrs>)

  /** Every parent comes before its children. */
  predicate ParentsBefore(parents: seq<int>) {
    forall i :: 0 <= i < |parents| ==> -1 <= parents[i] < i
  }

  /** Every attribute list has distinct names. */
  predicate EachDistinct(attribs: seq<Attrs>) {
    forall i :: 0 <= i < |attribs| ==> DistinctNames(attribs[i])
  }

  /** Every node has a parent link and an attribute list, whose names are
      distinct (cheerio keeps an element's attributes in an object). */
  type DomTree = t: Tree | |t.parents| == |t.kinds| == |t.attribs| && ParentsBefore(t.parents) && EachDistinct(t.attribs)
    witness Tree([], [], [])

  /** Matched by the selector `svg`. */
  predicate SvgAt(kinds: seq<NodeKind>, i: nat)
    requires i < |kinds|
  {
    kinds[i] == ElementNode("svg")
  }

  /** The node at `p`, or one of its ancestors, is an `svg` element. */
  predicate SvgAncestorAt(kinds: seq<NodeKind>, parents: seq<int>, p: int)
    requires |parents| == |kinds| && ParentsBefore(parents) && p < |kinds|
    decreases p + 1
  {
    0 <= p && (SvgAt(kinds, p) || SvgAncestorAt(kinds, parents, parents[p]))
  }

  /** Matched by `$("svg").find("*")`: an element with an `svg` ancestor. */
  predicate InsideSvgAt(kinds: seq<NodeKind>, parents: seq<int>, i: nat)
    requires |parents| == |kinds| && ParentsBefore(parents) && i < |kinds|
  {
    kinds[i].ElementNode? && SvgAncestorAt(kinds, parents, parents[i])
  }

  /** The indices of `p` and of every node above it, following parent links. */
  function Ancestors(parents: seq<int>, p: int): (r: set<nat>)
    requires ParentsBefore(parents) && p < |parents|
    ensures forall a :: a in r ==> a <= p
    decreases p + 1
  {
    if p < 0 then {} else {p as nat} + Ancestors(parents, parents[p])
  }

  /** The recursive test of SvgAncestorAt asks exactly whether some node of
      the chain of ancestors is an `svg` element. */
  lemma {:induction false} SvgAncestorInChain(kinds: seq<NodeKind>, parents: seq<int>, p: int)
    requires |parents| == |kinds| && ParentsBefore(parents) && p < |kinds|
    ensures SvgAncestorAt(kinds, parents, p) <==> exists a :: a in Ancestors(parents, p) && SvgAt(kinds, a)
    decreases p + 1
  {
    if p >= 0 {
      SvgAncestorInChain(kinds, parents, parents[p]);
      assert p in Ancestors(parents, p);
    }
  }

  /** `$("svg").find("*")` matches exactly the elements that have an `svg`
      element among their ancestors. */
  lemma InsideSvgIffSvgAncestor(kinds: seq<NodeKind>, parents: seq<int>, i: nat)
    requires |parents| == |kinds| && ParentsBefore(parents) && i < |kinds|
    ensures InsideSvgAt(kinds, parents, i) <==>
      kinds[i].ElementNode? && exists a :: a in Ancestors(parents, parents[i]) && SvgAt(kinds, a)
  {
    SvgAncestorInChain(kinds, parents, parents[i]);
  }

  /** transformSvg on a document value, up to serialisation: the nodes and
      their links stay, no `svg` element keeps a `width` or a `height`,
      nodes outside every `svg` keep their attributes, and the others are
      rewritten as TransformedAttrs says. */
  function TransformTree(camelCase: string -> string, t: DomTree): (r: DomTree)
    ensures r.kinds == t.kinds && r.parents == t.parents
    ensures forall i :: 0 <= i < |t.kinds| && SvgAt(t.kinds, i) ==>
      Lookup(r.attribs[i], "width") == None && Lookup(r.attribs[i], "height") == None
    ensures forall i :: 0 <= i < |t.kinds| && !SvgAt(t.kinds, i) && !InsideSvgAt(t.kinds, t.parents, i) ==>
      r.attribs[i] == t.attribs[i]
    ensures forall i :: 0 <= i < |t.kinds| ==>
      r.attribs[i] == TransformedAttrs(camelCase, SvgAt(t.kinds, i), InsideSvgAt(t.kinds, t.parents, i), t.attribs[i])
  {
    Tree(t.kinds, t.parents,
      seq(|t.kinds|, i requires 0 <= i < |t.kinds| =>
        TransformedAttrs(camelCase, SvgAt(t.kinds, i), InsideSvgAt(t.kinds, t.parents, i), t.attribs[i])))
  }

  /** Transforming a transformed document changes nothing, under the
      camelCase assumptions. */
  lemma TransformTreeIdempotent(camelCase: string -> string, t: DomTree)
    requires CamelCaseAssumptions(camelCase)
    ensures TransformTree(camelCase, TransformTree(camelCase, t)) == TransformTree(camelCase, t)
  {
    var once := TransformTree(camelCase, t);
    var twice := TransformTree(camelCase, once);
    forall i | 0 <= i < |t.kinds|
      ensures twice.attribs[i] == once.attribs[i]
    {
      TransformIdempotent(camelCase, SvgAt(t.kinds, i), InsideSvgAt(t.kinds, t.parents, i), t.attribs[i]);
    }
  }

  /** On an `svg` element or an element inside one, `class` is renamed to
      `className` and no `class` is left, unless a later attribute is
      renamed onto `className`. */
  lemma TransformedClassBecomesClassName(camelCase: string -> string, isSvg: bool, insideSvg: bool, a: Attrs, k: nat)
    requires CamelCaseAssumptions(camelCase) && (isSvg || insideSvg)
    requires DistinctNames(a) && k < |a| && a[k].name == "class"
    requires forall j :: k < j < |a| ==> !(Renamed(camelCase, a[j].name) && Target(camelCase, a[j].name) == "className")
    ensures Lookup(TransformedAttrs(camelCase, isSvg, insideSvg, a), "className") == Some(a[k].value)
    ensures Lookup(TransformedAttrs(camelCase, isSvg, insideSvg, a), "class") == None
  {
    NoLaterClass(camelCase, a, k);
    ClassBecomesClassName(camelCase, a, k);
    SameRuleAtEveryDepth(camelCase, isSvg, insideSvg, a);
    StripSizeKeepsClassNames(RewriteAttrs(camelCase, a));
  }

  /** With distinct names, no attribute after `class` converts to `class`
      when camelCase produces `class` from no other name. */
  lemma NoLaterClass(camelCase: string -> string, a: Attrs, k: nat)
    requires forall s :: s != "class" ==> camelCase(s) != "class"
    requires DistinctNames(a) && k < |a| && a[k].name == "class"
    ensures forall j :: k < j < |a| ==> Target(camelCase, a[j].name) != "class"
  {
    forall j | k < j < |a|
      ensures Target(camelCase, a[j].name) != "class"
    {
      assert a[j].name != a[k].name;
    }
  }

  /** Stripping the size leaves `class` and `className` alone. */
  lemma StripSizeKeepsClassNames(a: Attrs)
    ensures Lookup(StripSize(a), "className") == Lookup(a, "className")
    ensures Lookup(StripSize(a), "class") == Lookup(a, "class")
  {
  }

  /** The same in the document: every rewritten node turns its `class`
      into `className`. */
  lemma TreeClassBecomesClassName(camelCase: string -> string, t: DomTree, i: nat, k: nat)
    requires CamelCaseAssumptions(camelCase)
    requires i < |t.kinds| && (SvgAt(t.kinds, i) || InsideSvgAt(t.kinds, t.parents, i))
    requires k < |t.attribs[i]| && t.attribs[i][k].name == "class"
    requires forall j :: k < j < |t.attribs[i]| ==> !(Renamed(camelCase, t.attribs[i][j].name) && Target(camelCase, t.attribs[i][j].name) == "className")
    ensures Lookup(TransformTree(camelCase, t).attribs[i], "className") == Some(t.attribs[i][k].value)
    ensures Lookup(TransformTree(camelCase, t).attribs[i], "class") == None
  {
    TransformedClassBecomesClassName(camelCase, SvgAt(t.kinds, i), InsideSvgAt(t.kinds, t.parents, i), t.attribs[i], k);
  }

  /** A DOM node; only its attribute list can change. */
  class Node {
    const kind: NodeKind
    var attribs: Attrs

    constructor (kind: NodeKind, attribs: Attrs)
      ensures this.kind == kind && this.attribs == attribs
    {
      this.kind := kind;
      this.attribs := attribs;
    }

    /** The body of the loop in transformAttributes, for one entry `key`,
        `value`: drop, rename (write the new key, then remove the old one),
        or keep. */
    method RewriteEntry(camelCase: string -> string, key: string, value: string)
      modifies this
      ensures attribs == Step(camelCase, old(attribs), Attr(key, value))
    {
      var newKey := if key == "class" then "className" else camelCase(key);
      if newKey == "xmlns" || newKey == "version" {
        attribs := RemoveAttr(attribs, key);
      } else if newKey != key {
        attribs := SetAttr(attribs, newKey, value);
        attribs := RemoveAttr(attribs, key);
      }
    }

    /** transformAttributes: iterates over a snapshot of the entries and
        rewrites the live attribute list in place. */
    method TransformAttributes(camelCase: string -> string)
      modifies this
      ensures attribs == RewriteAttrs(camelCase, old(attribs))
    {
      var entries := attribs;
      var i := 0;
      while i < |entries|
        invariant 0 <= i <= |entries|
        invariant attribs == ApplyAll(camelCase, entries, entries[..i])
      {
        RewriteEntry(camelCase, entries[i].name, entries[i].value);
        assert entries[..i + 1][..i] == entries[..i];
        i := i + 1;
      }
      assert entries[..i] == entries;
    }

    /** `removeAttr("width").removeAttr("height")` on one element. */
    method RemoveSize()
      modifies this
      ensures attribs == StripSize(old(attribs))
    {
      attribs := RemoveAttr(attribs, "width");
      attribs := RemoveAttr(attribs, "height");
    }
  }

  /** A loaded document: its nodes in document order, each with the index
      of its parent (-1 for a top-level node). */
  class Document {
    const nodes: seq<Node>
    const parent: seq<int>

    predicate Valid() {
      |parent| == |nodes| && ParentsBefore(parent) &&
      (forall i, j :: 0 <= i < j < |nodes| ==> nodes[i] != nodes[j])
    }

    constructor (nodes: seq<Node>, parent: seq<int>)
      requires |parent| == |nodes|
      requires ParentsBefore(parent)
      requires forall i, j :: 0 <= i < j < |nodes| ==> nodes[i] != nodes[j]
      ensures Valid() && this.nodes == nodes && this.parent == parent
    {
      this.nodes := nodes;
      this.parent := parent;
    }

    /** The kinds of the nodes, in document order; they never change. */
    function Kinds(): (r: seq<NodeKind>)
      ensures |r| == |nodes| && forall i :: 0 <= i < |nodes| ==> r[i] == nodes[i].kind
    {
      seq(|nodes|, i requires 0 <= i < |nodes| => nodes[i].kind)
    }

    predicate IsSvg(i: nat)
      requires i < |nodes|
    {
      SvgAt(Kinds(), i)
    }

    predicate InsideSvg(i: nat)
      requires Valid() && i < |nodes|
    {
      InsideSvgAt(Kinds(), parent, i)
    }

    /** The attribute lists of all nodes, in document order. */
    function Attributes(): (r: seq<Attrs>)
      reads nodes
      ensures |r| == |nodes| && forall i :: 0 <= i < |nodes| ==> r[i] == nodes[i].attribs
    {
      seq(|nodes|, i reads nodes requires 0 <= i < |nodes| => nodes[i].attribs)
    }

    /** Each element's attribute names are distinct, as the keys of
        cheerio's `attribs` object are. */
    predicate AttrsDistinct()
      reads nodes
    {
      forall i :: 0 <= i < |nodes| ==> DistinctNames(nodes[i].attribs)
    }

    /** The document as a value. */
    function Snapshot(): (t: DomTree)
      requires Valid() && AttrsDistinct()
      reads nodes
      ensures t.kinds == Kinds() && t.parents == parent && t.attribs == Attributes()
    {
      Tree(Kinds(), parent, Attributes())
    }

    /** `.each(transformAttributes)` over the nodes a selection matched,
        in document order; `selected[j]` says whether node `j` matched. */
    method EachTransform(camelCase: string -> string, selected: seq<bool>)
      requires Valid() && |selected| == |nodes|
      modifies nodes
      ensures forall j :: 0 <= j < |nodes| && selected[j] ==> nodes[j].attribs == RewriteAttrs(camelCase, old(nodes[j].attribs))
      ensures forall j :: 0 <= j < |nodes| && !selected[j] ==> nodes[j].attribs == old(nodes[j].attribs)
    {
      for i := 0 to |nodes|
        invariant forall j :: 0 <= j < i && selected[j] ==> nodes[j].attribs == RewriteAttrs(camelCase, old(nodes[j].attribs))
        invariant forall j :: 0 <= j < |nodes| && !(j < i && selected[j]) ==> nodes[j].attribs == old(nodes[j].attribs)
      {
        if selected[i] {
          assert forall j :: 0 <= j < |nodes| && j != i ==> nodes[j] != nodes[i];
          nodes[i].TransformAttributes(camelCase);
        }
      }
    }

    /** `$("svg").each(transformAttributes)`. */
    method SvgPass(camelCase: string -> string)
      requires Valid()
      modifies nodes
      ensures forall j :: 0 <= j < |nodes| ==>
        nodes[j].attribs == if IsSvg(j) then RewriteAttrs(camelCase, old(nodes[j].attribs)) else old(nodes[j].attribs)
    {
      EachTransform(camelCase, seq(|nodes|, j requires 0 <= j < |nodes| => IsSvg(j)));
    }

    /** `$("svg").find("*").each(transformAttributes)`. */
    method FindPass(camelCase: string -> string)
      requires Valid()
      modifies nodes
      ensures forall j :: 0 <= j < |nodes| ==>
        nodes[j].attribs == if InsideSvg(j) then RewriteAttrs(camelCase, old(nodes[j].attribs)) else old(nodes[j].attribs)
    {
      EachTransform(camelCase, seq(|nodes|, j requires 0 <= j < |nodes| => InsideSvg(j)));
    }

    /** `.removeAttr("width").removeAttr("height")` on the nodes a selection
        matched; `selected[j]` says whether node `j` matched. */
    method EachRemoveSize(selected: seq<bool>)
      requires Valid() && |selected| == |nodes|
      modifies nodes
      ensures forall j :: 0 <= j < |nodes| && selected[j] ==> nodes[j].attribs == StripSize(old(nodes[j].attribs))
      ensures forall j :: 0 <= j < |nodes| && !selected[j] ==> nodes[j].attribs == old(nodes[j].attribs)
    {
      for i := 0 to |nodes|
        invariant forall j :: 0 <= j < i && selected[j] ==> nodes[j].attribs == StripSize(old(nodes[j].attribs))
        invariant forall j :: 0 <= j < |nodes| && !(j < i && selected[j]) ==> nodes[j].attribs == old(nodes[j].attribs)
      {
        if selected[i] {
          assert forall j :: 0 <= j < |nodes| && j != i ==> nodes[j] != nodes[i];
          nodes[i].RemoveSize();
        }
      }
    }

    /** `$("svg").removeAttr("width").removeAttr("height")`. */
    method StripPass()
      requires Valid()
      modifies nodes
      ensures forall j :: 0 <= j < |nodes| ==>
        nodes[j].attribs == if IsSvg(j) then StripSize(old(nodes[j].attribs)) else old(nodes[j].attribs)
    {
      EachRemoveSize(seq(|nodes|, j requires 0 <= j < |nodes| => IsSvg(j)));
    }

    /** transformSvg, up to serialisation: the document afterwards is
        TransformTree of the document before, so every node's attributes are
        rewritten as TransformedAttrs says and no `svg` element keeps a
        `width` or a `height`. */
    method TransformSvg(camelCase: string -> string)
      requires Valid() && AttrsDistinct()
      modifies nodes
      ensures AttrsDistinct()
      ensures forall i :: 0 <= i < |nodes| ==>
        nodes[i].attribs == TransformedAttrs(camelCase, IsSvg(i), InsideSvg(i), old(nodes[i].attribs))
      ensures forall i :: 0 <= i < |nodes| && IsSvg(i) ==>
        Lookup(nodes[i].attribs, "width") == None && Lookup(nodes[i].attribs, "height") == None
      ensures Snapshot() == TransformTree(camelCase, old(Snapshot()))
    {
      ghost var initial := Attributes();
      SvgPass(camelCase);
      ghost var afterSvg := Attributes();
      FindPass(camelCase);
      ghost var afterFind := Attributes();
      StripPass();
      assert forall i :: 0 <= i < |nodes| ==> initial[i] == old(nodes[i].attribs);
      assert Attributes() == TransformTree(camelCase, old(Snapshot())).attribs;
    }
  }
}
