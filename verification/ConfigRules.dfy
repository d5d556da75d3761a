/** What merging and rebasing configuration tables does (src/config.rs), key by key
    and with the keys spelled out. */
module ConfigRules {
  import opened Wrappers
  import opened ConfigMerge
  import opened ConfigLoader

  /** The keys whose lists are joined. */
  predicate ListKey(k: string) {
    k in {"extend-exclude", "extend-select", "extend-entry-points"}
  }

  predicate WidthKey(k: string) {
    k in {"line-width", "line_width", "indent-width", "indent_width"}
  }

  /** Of the two spellings of one width, what a merged format section holds: the
      extending section decides both if it has either. */
  ghost predicate WidthsFollow(existing: Value, incoming: Value, merged: Value, canonical: string, legacy: string)
    requires existing.Table? && incoming.Table? && merged.Table?
  {
    var plain := Merged(existing, incoming);
    if canonical in incoming.fields then
      Look(merged, canonical) == Look(plain, canonical) && Look(merged, legacy) == Look(incoming, legacy)
    else if legacy in incoming.fields then
      Look(merged, canonical) == None && Look(merged, legacy) == Look(plain, legacy)
    else Look(merged, canonical) == Look(existing, canonical) && Look(merged, legacy) == Look(existing, legacy)
  }

  /** A format section merges like any table, but for the spellings of the widths. */
  ghost predicate FormatFollows(existing: Value, incoming: Value, merged: Value)
    requires existing.Table? && incoming.Table?
  {
    && merged.Table?
    && (forall k :: !WidthKey(k) ==> Look(merged, k) == Look(Merged(existing, incoming), k))
    && WidthsFollow(existing, incoming, merged, "line-width", "line_width")
    && WidthsFollow(existing, incoming, merged, "indent-width", "indent_width")
  }

  /** The value under a key that both tables have. */
  ghost predicate BothFollow(k: string, existing: Value, incoming: Value, merged: Value) {
    if existing.Table? && incoming.Table? then
      if k == "functions" then merged == incoming
      else if k == "format" then FormatFollows(existing, incoming, merged)
      else merged == Merged(existing, incoming)
    else if existing.Array? && incoming.Array? && ListKey(k) then merged == Array(existing.items + incoming.items)
    else merged == incoming
  }

  lemma HiddenIs(incoming: map<string, Value>, k: string)
    ensures k in Hidden(incoming, "line-width", "line_width") <==>
      || (k == "line_width" && "line-width" in incoming)
      || (k == "line-width" && "line-width" !in incoming && "line_width" in incoming)
    ensures k in Hidden(incoming, "indent-width", "indent_width") <==>
      || (k == "indent_width" && "indent-width" in incoming)
      || (k == "indent-width" && "indent-width" !in incoming && "indent_width" in incoming)
  {
  }

  lemma WidthKeysDiffer()
    ensures "line-width" != "line_width" && "indent-width" != "indent_width"
    ensures "line-width" != "indent-width" && "line-width" != "indent_width"
    ensures "line_width" != "indent-width" && "line_width" != "indent_width"
  {
    assert "line-width"[4] == '-' && "line_width"[4] == '_' && "indent-width"[6] == '-' && "indent_width"[6] == '_';
    assert |"line-width"| == |"line_width"| == 10 && |"indent-width"| == |"indent_width"| == 12;
  }

  lemma FormatMerges(existing: Value, incoming: Value, k: string)
    requires existing.Table? && incoming.Table?
    ensures var left := Unaliased(existing.fields, incoming.fields);
      Look(MergedIn("format", existing, incoming), k) == Combined(k, Look(Table(left), k), Look(incoming, k))
    ensures Look(Merged(existing, incoming), k) == Combined(k, Look(existing, k), Look(incoming, k))
  {
    MergedLook(Table(Unaliased(existing.fields, incoming.fields)), incoming, k);
    MergedLook(existing, incoming, k);
    hide Unaliased, Merged;
  }

  lemma FormatRule(existing: Value, incoming: Value)
    requires existing.Table? && incoming.Table?
    ensures FormatFollows(existing, incoming, MergedIn("format", existing, incoming))
  {
    hide MergedIn, Merged, MergedAt, Hidden;
    WidthKeysDiffer();
    forall k
      ensures !WidthKey(k) ==> Look(MergedIn("format", existing, incoming), k) == Look(Merged(existing, incoming), k)
    {
      FormatMerges(existing, incoming, k);
      HiddenIs(incoming.fields, k);
    }
    FormatMerges(existing, incoming, "line-width");
    FormatMerges(existing, incoming, "line_width");
    FormatMerges(existing, incoming, "indent-width");
    FormatMerges(existing, incoming, "indent_width");
    HiddenIs(incoming.fields, "line-width");
    HiddenIs(incoming.fields, "line_width");
    HiddenIs(incoming.fields, "indent-width");
    HiddenIs(incoming.fields, "indent_width");
  }

  /** What a merged table holds under any key. */
  lemma MergeRule(base: Value, child: Value, k: string)
    requires base.Table? && child.Table?
    ensures var merged := Merged(base, child);
      && (k in merged.fields <==> k in base.fields || k in child.fields)
      && (k in base.fields && k !in child.fields ==> merged.fields[k] == base.fields[k])
      && (k !in base.fields && k in child.fields ==> merged.fields[k] == child.fields[k])
      && (k in base.fields && k in child.fields ==> BothFollow(k, base.fields[k], child.fields[k], merged.fields[k]))
  {
    if k in base.fields && k in child.fields {
      MergedField(base, child, k);
      var x, y := base.fields[k], child.fields[k];
      if x.Table? && y.Table? && k == "format" {
        FormatRule(x, y);
      }
      hide FormatFollows;
    }
  }

  /** The width in effect: the spelling with a dash if it is set, else the other. */
  lemma WidthRule(config: Value)
    requires config.Table? && "format" in config.fields && config.fields["format"].Table?
    ensures var format := config.fields["format"];
      && FormatOf(config) == format
      && Width(config, "line-width") ==
           (if "line-width" in format.fields then Look(format, "line-width") else Look(format, "line_width"))
      && Width(config, "indent-width") ==
           (if "indent-width" in format.fields then Look(format, "indent-width") else Look(format, "indent_width"))
      && (SetsWidth(format, "line-width") <==> "line-width" in format.fields || "line_width" in format.fields)
      && (SetsWidth(format, "indent-width") <==> "indent-width" in format.fields || "indent_width" in format.fields)
  {
    WidthKeysDiffer();
  }

  // ---- Inherited entry points ----

  /** An entry point of an inherited file: a relative one is read beside the file. */
  predicate PointRebased(w: World, path: Path, before: Value, after: Value) {
    after == if before.Text? && !w.isAbsolute(before.text) then Text(w.beside(path, before.text)) else before
  }

  ghost predicate PointsRebased(w: World, path: Path, before: Value, after: Value) {
    if before.Array? then
      && after.Array? && |after.items| == |before.items|
      && forall i :: 0 <= i < |before.items| ==> PointRebased(w, path, before.items[i], after.items[i])
    else after == before
  }

  /** The project section of an inherited file, with both lists of entry points
      rebased. */
  ghost predicate ProjectRebased(w: World, path: Path, before: Value, after: Value) {
    if before.Table? then
      && after.Table? && after.fields.Keys == before.fields.Keys
      && forall k :: k in before.fields ==>
           if k in {"entry-points", "extend-entry-points"} then PointsRebased(w, path, before.fields[k], after.fields[k])
           else after.fields[k] == before.fields[k]
    else after == before
  }

  lemma {:induction false} PointsAre(w: World, path: Path, points: seq<Value>)
    ensures PointsRebased(w, path, Array(points), Array(RebasedPoints(w, path, points)))
  {
    if points != [] {
      PointsAre(w, path, points[1..]);
      var after := RebasedPoints(w, path, points);
      forall i | 0 <= i < |points|
        ensures i < |after| && PointRebased(w, path, points[i], after[i])
      {
        assert i > 0 ==> points[i] == points[1..][i - 1];
      }
    }
  }

  lemma KeyRebased(w: World, path: Path, project: map<string, Value>, key: string)
    ensures var after := RebasedKey(w, path, project, key);
      && after.Keys == project.Keys
      && forall k :: k in project ==>
           if k == key then PointsRebased(w, path, project[k], after[k]) else after[k] == project[k]
  {
    if key in project && project[key].Array? {
      PointsAre(w, path, project[key].items);
      hide PointsRebased;
    }
  }

  lemma ProjectIs(w: World, path: Path, project: map<string, Value>)
    ensures ProjectRebased(w, path, Table(project),
                           Table(RebasedKey(w, path, RebasedKey(w, path, project, "entry-points"), "extend-entry-points")))
  {
    hide RebasedKey, PointsRebased;
    KeyRebased(w, path, project, "entry-points");
    KeyRebased(w, path, RebasedKey(w, path, project, "entry-points"), "extend-entry-points");
    assert |"entry-points"| == 12 && |"extend-entry-points"| == 19;
  }

  /** What a file contributes: its table without the key that names what it extends,
      and if it is inherited, with its entry points rebased. */
  lemma ContributionRule(w: World, path: Path, file: File, inherited: bool)
    requires file.table.Table?
    ensures var own := Own(w, path, file, inherited);
      && (forall k :: k in own.fields <==> k in file.table.fields && k != "extend")
      && forall k :: k in own.fields ==>
           if inherited && k == "project" then ProjectRebased(w, path, file.table.fields[k], own.fields[k])
           else own.fields[k] == file.table.fields[k]
  {
    hide ProjectRebased, RebasedKey;
    var fields := file.table.fields - {"extend"};
    assert |"project"| == 7 && |"extend"| == 6;
    if "project" in fields && fields["project"].Table? {
      ProjectIs(w, path, fields["project"].fields);
    } else if "project" in fields {
      NoProject(w, path, fields["project"]);
    }
  }

  lemma NoProject(w: World, path: Path, v: Value)
    requires !v.Table?
    ensures ProjectRebased(w, path, v, v)
  {
  }
}
