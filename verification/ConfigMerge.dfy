/** Merging an inherited configuration table with the one that extends it
    (src/config.rs): tables merge key by key, a few lists are joined, the table of
    functions is replaced as a whole, and a width set under either of its two
    spellings hides both spellings of the inherited one. */
module ConfigMerge {
  import opened Wrappers

  /** `Scalar` is every value that is neither a string nor a collection. */
  datatype Value = Text(text: string) | Scalar(literal: string) | Array(items: seq<Value>) | Table(fields: map<string, Value>)

  const LINE_WIDTH := "line-width"
  const LINE_WIDTH_OLD := "line_width"
  const INDENT_WIDTH := "indent-width"
  const INDENT_WIDTH_OLD := "indent_width"
  const FORMAT := "format"
  const FUNCTIONS := "functions"

  predicate Joined(key: string) {
    key == "extend-exclude" || key == "extend-select" || key == "extend-entry-points"
  }

  predicate IsWidth(key: string) {
    key == LINE_WIDTH || key == LINE_WIDTH_OLD || key == INDENT_WIDTH || key == INDENT_WIDTH_OLD
  }

  /** The other spelling of a width. */
  function Twin(key: string): string {
    if key == LINE_WIDTH then LINE_WIDTH_OLD
    else if key == LINE_WIDTH_OLD then LINE_WIDTH
    else if key == INDENT_WIDTH then INDENT_WIDTH_OLD
    else INDENT_WIDTH
  }

  /** Of one pair of spellings, the one to drop from what is inherited. */
  function Hidden(incoming: map<string, Value>, canonical: string, legacy: string): set<string> {
    if canonical in incoming then {legacy} else if legacy in incoming then {canonical} else {}
  }

  function Unaliased(existing: map<string, Value>, incoming: map<string, Value>): map<string, Value> {
    existing - Hidden(incoming, LINE_WIDTH, LINE_WIDTH_OLD) - Hidden(incoming, INDENT_WIDTH, INDENT_WIDTH_OLD)
  }

  function Merged(base: Value, child: Value): (r: Value)
    requires base.Table? && child.Table?
    ensures r.Table?
    decreases child, 0
  {
    Table(map k | k in base.fields.Keys + child.fields.Keys ::
            if k !in child.fields then base.fields[k]
            else if k !in base.fields then child.fields[k]
            else MergedAt(k, base.fields[k], child.fields[k]))
  }

  /** Merging two tables found under the key. */
  function MergedIn(key: string, base: Value, child: Value): (r: Value)
    requires base.Table? && child.Table?
    ensures r.Table?
    decreases child, 1
  {
    Merged(if key == FORMAT then Table(Unaliased(base.fields, child.fields)) else base, child)
  }

  function MergedAt(key: string, existing: Value, incoming: Value): Value
    decreases incoming, 2
  {
    if existing.Table? && incoming.Table? then
      if key == FUNCTIONS then incoming else MergedIn(key, existing, incoming)
    else if existing.Array? && incoming.Array? && Joined(key) then Array(existing.items + incoming.items)
    else incoming
  }

  lemma MergedField(base: Value, child: Value, k: string)
    requires base.Table? && child.Table? && k in child.fields
    ensures k in Merged(base, child).fields
    ensures Merged(base, child).fields[k] == if k in base.fields then MergedAt(k, base.fields[k], child.fields[k]) else child.fields[k]
  {
  }

  /** `base` is updated one key of `child` at a time, in any order. */
  method MergeConfigTables(base: Value, child: Value) returns (r: Value)
    requires base.Table? && child.Table?
    ensures r == Merged(base, child)
    decreases child
  {
    var fields, keys := base.fields, child.fields.Keys;
    while keys != {}
      invariant keys <= child.fields.Keys
      invariant fields.Keys == base.fields.Keys + (child.fields.Keys - keys)
      invariant forall k :: k in fields ==>
        fields[k] == if k in child.fields && k !in keys then Merged(base, child).fields[k] else base.fields[k]
      decreases keys
    {
      var key :| key in keys;
      var value := child.fields[key];
      MergedField(base, child, key);
      if key in fields && fields[key].Table? && value.Table? {
        if key == FUNCTIONS {
          fields := fields[key := value];
        } else {
          var existing := fields[key];
          if key == FORMAT {
            existing := Table(Unaliased(existing.fields, value.fields));
          }
          var inner := MergeConfigTables(existing, value);
          fields := fields[key := inner];
        }
      } else if key in fields && fields[key].Array? && value.Array? && Joined(key) {
        fields := fields[key := Array(fields[key].items + value.items)];
      } else {
        fields := fields[key := value];
      }
      keys := keys - {key};
    }
    r := Table(fields);
    assert r.fields == Merged(base, child).fields;
  }

  // ---- Key by key ----

  function Look(t: Value, k: string): Option<Value>
    requires t.Table?
  {
    if k in t.fields then Some(t.fields[k]) else None
  }

  predicate SetsWidth(t: Value, k: string)
    requires t.Table?
  {
    k in t.fields || Twin(k) in t.fields
  }

  function Combined(k: string, a: Option<Value>, b: Option<Value>): Option<Value> {
    match (a, b)
    case (None, _) => b
    case (_, None) => a
    case (Some(x), Some(y)) => Some(MergedAt(k, x, y))
  }

  /** Widths are no tables. */
  ghost predicate PlainWidths(key: string, t: Value)
    requires t.Table?
  {
    key == FORMAT ==> forall k :: k in t.fields && IsWidth(k) ==> !t.fields[k].Table?
  }

  /** Dropping spellings touches nothing but widths, and drops a spelling exactly
      when the other one comes in (a dash before an underscore). */
  lemma UnaliasedKeeps(existing: map<string, Value>, incoming: map<string, Value>, k: string)
    ensures var left := Unaliased(existing, incoming);
      && (k in left ==> k in existing && left[k] == existing[k])
      && (!IsWidth(k) && k in existing ==> k in left)
      && (IsWidth(k) && k in existing && k !in incoming && Twin(k) !in incoming ==> k in left)
      && (IsWidth(k) && k !in incoming && Twin(k) in incoming ==> k !in left)
  {
    KeysDiffer();
  }

  lemma PlainReplaced(k: string, x: Value, y: Value)
    requires IsWidth(k) && !x.Table?
    ensures MergedAt(k, x, y) == y
  {
    KeysDiffer();
  }

  /** What a merge holds under each key: for a width, both spellings of the child's
      if it sets either. */
  lemma Entry(key: string, a: Value, b: Value, k: string)
    requires a.Table? && b.Table? && PlainWidths(key, a) && PlainWidths(key, b)
    ensures Look(MergedIn(key, a, b), k) ==
      if key == FORMAT && IsWidth(k) then if SetsWidth(b, k) then Look(b, k) else Look(a, k)
      else Combined(k, Look(a, k), Look(b, k))
  {
    hide Unaliased, IsWidth, Twin, Merged, MergedAt;
    var base := if key == FORMAT then Table(Unaliased(a.fields, b.fields)) else a;
    UnaliasedKeeps(a.fields, b.fields, k);
    MergedLook(base, b, k);
    if key == FORMAT && IsWidth(k) && k in base.fields && k in b.fields {
      PlainReplaced(k, base.fields[k], b.fields[k]);
    }
  }

  lemma MergedLook(base: Value, child: Value, k: string)
    requires base.Table? && child.Table?
    ensures Look(Merged(base, child), k) == Combined(k, Look(base, k), Look(child, k))
  {
  }

  lemma KeysDiffer()
    ensures LINE_WIDTH != LINE_WIDTH_OLD && INDENT_WIDTH != INDENT_WIDTH_OLD
    ensures LINE_WIDTH != INDENT_WIDTH && LINE_WIDTH != INDENT_WIDTH_OLD
    ensures LINE_WIDTH_OLD != INDENT_WIDTH && LINE_WIDTH_OLD != INDENT_WIDTH_OLD
    ensures forall k :: IsWidth(k) ==> !Joined(k)
  {
    assert LINE_WIDTH[4] != LINE_WIDTH_OLD[4];
    assert INDENT_WIDTH[6] != INDENT_WIDTH_OLD[6];
    assert |LINE_WIDTH| == |LINE_WIDTH_OLD| == 10 && |INDENT_WIDTH| == |INDENT_WIDTH_OLD| == 12;
    assert |"extend-exclude"| == 14 && |"extend-select"| == 13 && |"extend-entry-points"| == 19;
  }

  lemma SameLooks(s: Value, t: Value)
    requires s.Table? && t.Table? && forall k :: Look(s, k) == Look(t, k)
    ensures s == t
  {
    assert forall k :: k in s.fields <==> Look(s, k).Some?;
    assert forall k :: k in t.fields <==> Look(t, k).Some?;
    assert s.fields.Keys == t.fields.Keys;
    assert forall k :: k in s.fields ==> Look(s, k) == Some(s.fields[k]) && Look(t, k) == Some(t.fields[k]);
    assert s.fields == t.fields;
  }

  // ---- Tables that follow one schema ----

  /** Two values under the same key are of one kind, and tables so throughout. */
  ghost predicate Alike(k: string, a: Value, b: Value)
    decreases a, 1
  {
    match a
    case Table(_) => b.Table? && (k == FUNCTIONS || AlikeTables(k, a, b))
    case Array(_) => b.Array?
    case Text(_) => b.Text?
    case Scalar(_) => b.Scalar?
  }

  ghost predicate AlikeTables(key: string, a: Value, b: Value)
    requires a.Table? && b.Table?
    decreases a, 0
  {
    && PlainWidths(key, a) && PlainWidths(key, b)
    && forall k :: k in a.fields && k in b.fields ==> Alike(k, a.fields[k], b.fields[k])
  }

  lemma PlainMerged(key: string, a: Value, b: Value)
    requires a.Table? && b.Table? && PlainWidths(key, a) && PlainWidths(key, b)
    ensures PlainWidths(key, MergedIn(key, a, b))
  {
    var m := MergedIn(key, a, b);
    if key == FORMAT {
      forall k | k in m.fields && IsWidth(k)
        ensures !m.fields[k].Table?
      {
        Entry(key, a, b, k);
        assert Look(m, k) == Some(m.fields[k]);
      }
    }
  }

  lemma {:induction false} AssociativeAt(k: string, x: Value, y: Value, z: Value)
    requires Alike(k, x, y) && Alike(k, y, z) && Alike(k, x, z)
    ensures MergedAt(k, MergedAt(k, x, y), z) == MergedAt(k, x, MergedAt(k, y, z))
    decreases x, 1
  {
    if x.Table? && k != FUNCTIONS {
      AssociativeIn(k, x, y, z);
      hide MergedIn, AlikeTables;
    } else {
      hide MergedIn, AlikeTables;
      if x.Array? && Joined(k) {
        assert (x.items + y.items) + z.items == x.items + (y.items + z.items);
      }
    }
  }

  lemma {:induction false} AssociativeIn(key: string, a: Value, b: Value, c: Value)
    requires a.Table? && b.Table? && c.Table?
    requires AlikeTables(key, a, b) && AlikeTables(key, b, c) && AlikeTables(key, a, c)
    ensures MergedIn(key, MergedIn(key, a, b), c) == MergedIn(key, a, MergedIn(key, b, c))
    decreases a, 0
  {
    var left, right := MergedIn(key, a, b), MergedIn(key, b, c);
    PlainMerged(key, a, b);
    PlainMerged(key, b, c);
    forall k
      ensures Look(MergedIn(key, left, c), k) == Look(MergedIn(key, a, right), k)
    {
      if k in a.fields && k in b.fields && k in c.fields {
        AssociativeAt(k, a.fields[k], b.fields[k], c.fields[k]);
      }
      hide MergedIn, AlikeTables, PlainWidths, MergedAt;
      Entry(key, a, b, k);
      Entry(key, b, c, k);
      Entry(key, left, c, k);
      Entry(key, a, right, k);
      if key == FORMAT && IsWidth(k) {
        Entry(key, b, c, Twin(k));
        hide Twin;
      }
    }
    hide MergedIn;
    SameLooks(MergedIn(key, left, c), MergedIn(key, a, right));
  }

  /** The empty table changes nothing on either side, and merging is associative on
      tables of one schema: it does not matter how a chain is grouped. */
  lemma MergeIsMonoid(a: Value, b: Value, c: Value)
    requires a.Table? && b.Table? && c.Table?
    ensures Merged(Table(map[]), a) == a && Merged(a, Table(map[])) == a
    ensures AlikeTables("", a, b) && AlikeTables("", b, c) && AlikeTables("", a, c) ==>
      Merged(Merged(a, b), c) == Merged(a, Merged(b, c))
  {
    assert Merged(Table(map[]), a).fields == a.fields;
    assert Merged(a, Table(map[])).fields == a.fields;
    if AlikeTables("", a, b) && AlikeTables("", b, c) && AlikeTables("", a, c) {
      AssociativeIn("", a, b, c);
      hide Merged;
    }
  }

  /** Without one schema, grouping matters. */
  lemma MixedKindsDoNotAssociate()
    ensures var a := Table(map["x" := Table(map["p" := Scalar("1")])]);
      var b := Table(map["x" := Scalar("2")]);
      var c := Table(map["x" := Table(map["q" := Scalar("3")])]);
      Merged(Merged(a, b), c) != Merged(a, Merged(b, c))
  {
    var a := Table(map["x" := Table(map["p" := Scalar("1")])]);
    var b := Table(map["x" := Scalar("2")]);
    var c := Table(map["x" := Table(map["q" := Scalar("3")])]);
    assert Merged(a, b).fields["x"] == Scalar("2");
    assert Merged(Merged(a, b), c).fields["x"] == c.fields["x"];
    assert Merged(b, c).fields["x"] == c.fields["x"];
    assert Merged(a, Merged(b, c)).fields["x"] == Merged(a.fields["x"], c.fields["x"]);
    assert "p" in Merged(a.fields["x"], c.fields["x"]).fields;
  }

  // ---- Schemas survive merging ----

  lemma {:induction false} AlikeSymmetric(k: string, a: Value, b: Value)
    requires Alike(k, a, b)
    ensures Alike(k, b, a)
    decreases a, 1
  {
    if a.Table? && k != FUNCTIONS {
      AlikeTablesSymmetric(k, a, b);
    }
  }

  lemma {:induction false} AlikeTablesSymmetric(key: string, a: Value, b: Value)
    requires a.Table? && b.Table? && AlikeTables(key, a, b)
    ensures AlikeTables(key, b, a)
    decreases a, 0
  {
    forall k | k in a.fields && k in b.fields
      ensures Alike(k, b.fields[k], a.fields[k])
    {
      AlikeSymmetric(k, a.fields[k], b.fields[k]);
    }
  }

  lemma {:induction false} AlikeAt(k: string, x: Value, y: Value, z: Value)
    requires Alike(k, x, y) && Alike(k, y, z) && Alike(k, x, z)
    ensures Alike(k, MergedAt(k, x, y), z)
    decreases x, 1
  {
    if x.Table? && k != FUNCTIONS {
      AlikeIn(k, x, y, z);
    }
    hide MergedIn, AlikeTables;
  }

  lemma {:induction false} AlikeIn(key: string, a: Value, b: Value, c: Value)
    requires a.Table? && b.Table? && c.Table?
    requires AlikeTables(key, a, b) && AlikeTables(key, b, c) && AlikeTables(key, a, c)
    ensures AlikeTables(key, MergedIn(key, a, b), c)
    decreases a, 0
  {
    var m := MergedIn(key, a, b);
    PlainMerged(key, a, b);
    forall k | k in m.fields && k in c.fields
      ensures Alike(k, m.fields[k], c.fields[k])
    {
      Entry(key, a, b, k);
      if k in a.fields && k in b.fields {
        AlikeAt(k, a.fields[k], b.fields[k], c.fields[k]);
      }
      assert Look(m, k) == Some(m.fields[k]);
      hide MergedIn, MergedAt, PlainWidths;
    }
  }

  // ---- A chain of tables ----

  /** The tables of a chain merged, the first being the last to extend. */
  function Fold(tables: seq<Value>): (r: Value)
    requires forall i :: 0 <= i < |tables| ==> tables[i].Table?
    ensures r.Table?
  {
    if tables == [] then Table(map[]) else Merged(Fold(tables[1..]), tables[0])
  }

  ghost predicate OneSchema(tables: seq<Value>) {
    && (forall i :: 0 <= i < |tables| ==> tables[i].Table?)
    && forall i, j :: 0 <= i < |tables| && 0 <= j < |tables| ==> AlikeTables("", tables[i], tables[j])
  }

  lemma {:induction false} FoldAlike(tables: seq<Value>, t: Value)
    requires t.Table? && OneSchema(tables) && forall i :: 0 <= i < |tables| ==> AlikeTables("", tables[i], t)
    ensures AlikeTables("", Fold(tables), t)
  {
    if tables == [] {
    } else {
      var first, rest := tables[0], tables[1..];
      FoldAlike(rest, t);
      FoldAlike(rest, first);
      AlikeIn("", Fold(rest), first, t);
      hide AlikeTables;
    }
  }

  /** A chain may be cut anywhere: its tables merge to the merge of both parts. */
  lemma {:induction false} FoldSplits(a: seq<Value>, b: seq<Value>)
    requires OneSchema(a + b)
    ensures OneSchema(a) && OneSchema(b)
    ensures Fold(a + b) == Merged(Fold(b), Fold(a))
  {
    hide AlikeTables;
    PartsAlike(a, b);
    if a == [] {
      assert a + b == b;
      hide Merged;
      assert Fold(a) == Table(map[]);
      MergeIsMonoid(Fold(b), Fold(b), Fold(b));
    } else {
      var first, rest := a[0], a[1..];
      assert a == [first] + rest;
      assert a + b == [first] + (rest + b);
      PartsAlike([first], rest + b);
      FoldSplits(rest, b);
      FoldsAlike(rest, b);
      FoldAlike(rest, first);
      FoldAlike(b, first);
      hide Merged;
      assert (a + b)[1..] == rest + b;
      MergeIsMonoid(Fold(b), Fold(rest), first);
    }
  }

  lemma PartsAlike(a: seq<Value>, b: seq<Value>)
    requires OneSchema(a + b)
    ensures OneSchema(a) && OneSchema(b)
    ensures forall i, j :: 0 <= i < |a| && 0 <= j < |b| ==> AlikeTables("", a[i], b[j]) && AlikeTables("", b[j], a[i])
  {
    hide AlikeTables;
    var all := a + b;
    assert forall i :: 0 <= i < |a| ==> all[i] == a[i];
    assert forall j :: 0 <= j < |b| ==> all[|a| + j] == b[j];
  }

  lemma FoldsAlike(a: seq<Value>, b: seq<Value>)
    requires OneSchema(a + b)
    ensures OneSchema(a) && OneSchema(b) && AlikeTables("", Fold(b), Fold(a))
  {
    hide AlikeTables;
    PartsAlike(a, b);
    forall j | 0 <= j < |b|
      ensures AlikeTables("", b[j], Fold(a))
    {
      FoldAlike(a, b[j]);
      AlikeTablesSymmetric("", Fold(a), b[j]);
    }
    FoldAlike(b, Fold(a));
  }

  // ---- The widths that take effect ----

  function FormatOf(config: Value): (t: Value)
    requires config.Table?
    ensures t.Table?
  {
    if FORMAT in config.fields && config.fields[FORMAT].Table? then config.fields[FORMAT] else Table(map[])
  }

  /** The spelling with a dash is preferred. */
  function Width(config: Value, canonical: string): Option<Value>
    requires config.Table?
  {
    var format := FormatOf(config);
    if canonical in format.fields then Some(format.fields[canonical]) else Look(format, Twin(canonical))
  }

  /** Schema-typed as far as the format section goes. */
  ghost predicate FormatTyped(config: Value)
    requires config.Table?
  {
    FORMAT in config.fields ==> config.fields[FORMAT].Table? && PlainWidths(FORMAT, config.fields[FORMAT])
  }

  /** The width in effect is the child's when the child sets either spelling, and
      the inherited one otherwise; so is whether the old spelling is warned about. */
  lemma WidthIsInherited(base: Value, child: Value, canonical: string)
    requires base.Table? && child.Table? && FormatTyped(base) && FormatTyped(child)
    requires canonical == LINE_WIDTH || canonical == INDENT_WIDTH
    ensures var own := SetsWidth(FormatOf(child), canonical);
      && Width(Merged(base, child), canonical) == Width(if own then child else base, canonical)
      && (Twin(canonical) in FormatOf(Merged(base, child)).fields <==>
          Twin(canonical) in FormatOf(if own then child else base).fields)
  {
    if FORMAT in base.fields && FORMAT in child.fields {
      var a, b := base.fields[FORMAT], child.fields[FORMAT];
      assert Merged(base, child).fields[FORMAT] == MergedIn(FORMAT, a, b);
      Entry(FORMAT, a, b, canonical);
      Entry(FORMAT, a, b, Twin(canonical));
      hide MergedIn, PlainWidths;
    }
  }
}
