/** The cursor cache of src/client/cursortheme.cpp and its fallback to the arrow. */
module CursorTheme {
  import opened Sequences

  type Shape = nat
  type Cursor = nat

  const ARROW: Shape := 0

  /** What the cursor library loaded: cursors by name, and the images of each. */
  datatype Theme = Theme(cursors: map<string, Cursor>, images: map<Cursor, seq<nat>>)

  datatype Entry = Entry(shape: Shape, name: string)

  /** QMultiMap::values: the names of a shape, the last inserted first. */
  function Names(entries: seq<Entry>, shape: Shape): seq<string> {
    if entries == [] then []
    else
      var last := entries[|entries| - 1];
      (if last.shape == shape then [last.name] else []) + Names(entries[..|entries| - 1], shape)
  }

  function FirstAvailable(theme: Theme, names: seq<string>): Option<Cursor> {
    if names == [] then None
    else if names[0] in theme.cursors then Some(theme.cursors[names[0]])
    else FirstAvailable(theme, names[1..])
  }

  /** Lookup without a cache: the shape's own cursor, or else the arrow. */
  function Uncached(theme: Option<Theme>, entries: seq<Entry>, shape: Shape): Option<Cursor> {
    if theme.None? then None
    else
      var own := FirstAvailable(theme.value, Names(entries, shape));
      if own.Some? then own else FirstAvailable(theme.value, Names(entries, ARROW))
  }

  /** The name found is the most recently inserted of those the theme has. */
  lemma {:induction false} FirstAvailableIsLatest(theme: Theme, entries: seq<Entry>, shape: Shape, k: nat)
    requires k < |entries| && entries[k].shape == shape && entries[k].name in theme.cursors
    requires forall j :: k < j < |entries| && entries[j].shape == shape ==> entries[j].name !in theme.cursors
    ensures FirstAvailable(theme, Names(entries, shape)) == Some(theme.cursors[entries[k].name])
  {
    var front, last := entries[..|entries| - 1], entries[|entries| - 1];
    var older := Names(front, shape);
    if k < |entries| - 1 {
      FirstAvailableIsLatest(theme, front, shape, k);
    }
    if last.shape == shape {
      assert Names(entries, shape) == [last.name] + older;
      assert ([last.name] + older)[1..] == older;
    } else {
      assert Names(entries, shape) == older;
    }
  }

  ghost predicate HasName(theme: Theme, entries: seq<Entry>, shape: Shape) {
    exists k :: 0 <= k < |entries| && entries[k].shape == shape && entries[k].name in theme.cursors
  }

  /** The theme has a cursor under one of the shape's names exactly when one is found. */
  lemma {:induction false} FoundIffNamed(theme: Theme, entries: seq<Entry>, shape: Shape)
    ensures FirstAvailable(theme, Names(entries, shape)).Some? <==> HasName(theme, entries, shape)
  {
    if entries != [] {
      var front, last := entries[..|entries| - 1], entries[|entries| - 1];
      var older := Names(front, shape);
      FoundIffNamed(theme, front, shape);
      assert last.shape == shape ==> ([last.name] + older)[1..] == older;
      assert last.shape != shape ==> Names(entries, shape) == older;
      assert HasName(theme, entries, shape)
        <==> HasName(theme, front, shape) || (last.shape == shape && last.name in theme.cursors);
    }
  }

  /** The cursor under the name of the shape that was inserted last of those the theme has. */
  ghost predicate Latest(theme: Theme, entries: seq<Entry>, shape: Shape, cursor: Cursor) {
    exists k :: 0 <= k < |entries| && entries[k].shape == shape && entries[k].name in theme.cursors
      && theme.cursors[entries[k].name] == cursor
      && forall j :: k < j < |entries| && entries[j].shape == shape ==> entries[j].name !in theme.cursors
  }

  /** The answer to a request: the shape's own cursor, the arrow if it has none, and nothing if there is no arrow or no theme. */
  ghost predicate Answers(theme: Option<Theme>, entries: seq<Entry>, shape: Shape, cursor: Option<Cursor>) {
    if theme.None? then cursor == None
    else if HasName(theme.value, entries, shape) then cursor.Some? && Latest(theme.value, entries, shape, cursor.value)
    else if HasName(theme.value, entries, ARROW) then cursor.Some? && Latest(theme.value, entries, ARROW, cursor.value)
    else cursor == None
  }

  lemma LatestFound(theme: Theme, entries: seq<Entry>, shape: Shape, cursor: Cursor)
    requires HasName(theme, entries, shape)
    ensures FirstAvailable(theme, Names(entries, shape)) == Some(cursor) <==> Latest(theme, entries, shape, cursor)
  {
    var k := LastName(theme, entries, shape);
    FirstAvailableIsLatest(theme, entries, shape, k);
  }

  lemma {:induction false} LastName(theme: Theme, entries: seq<Entry>, shape: Shape) returns (k: nat)
    requires HasName(theme, entries, shape)
    ensures k < |entries| && entries[k].shape == shape && entries[k].name in theme.cursors
    ensures forall j :: k < j < |entries| && entries[j].shape == shape ==> entries[j].name !in theme.cursors
  {
    var front, last := entries[..|entries| - 1], entries[|entries| - 1];
    if last.shape == shape && last.name in theme.cursors {
      k := |front|;
    } else {
      var i :| 0 <= i < |entries| && entries[i].shape == shape && entries[i].name in theme.cursors;
      assert front[i] == entries[i];
      k := LastName(theme, front, shape);
    }
  }

  /** The uncached lookup gives this answer and no other. */
  lemma UncachedIff(theme: Option<Theme>, entries: seq<Entry>, shape: Shape, cursor: Option<Cursor>)
    ensures Uncached(theme, entries, shape) == cursor <==> Answers(theme, entries, shape, cursor)
  {
    if theme.Some? {
      FoundIffNamed(theme.value, entries, shape);
      FoundIffNamed(theme.value, entries, ARROW);
      if cursor.Some? && HasName(theme.value, entries, shape) {
        LatestFound(theme.value, entries, shape, cursor.value);
      } else if cursor.Some? && HasName(theme.value, entries, ARROW) {
        LatestFound(theme.value, entries, ARROW, cursor.value);
      }
    }
  }

  class CursorThemePrivate {
    const entries: seq<Entry>  // cursorShapes, in order of insertion
    var theme: Option<Theme>
    var cursors: map<Shape, Cursor>

    /** Every cached cursor is the one the theme has for its shape. */
    ghost predicate Valid()
      reads this
    {
      && (theme.None? ==> cursors == map[])
      && (theme.Some? ==> forall s :: s in cursors ==> FirstAvailable(theme.value, Names(entries, s)) == Some(cursors[s]))
    }

    constructor (entries: seq<Entry>)
      ensures Valid() && this.entries == entries && theme == None
    {
      this.entries, theme, cursors := entries, None, map[];
    }

    method LoadTheme(loaded: Option<Theme>)
      requires Valid()
      modifies `theme
      ensures Valid() && theme == if old(theme).Some? then old(theme) else loaded
    {
      if theme.Some? {
        return;
      }
      theme := loaded;
    }

    /** Whatever was asked before, the answer is that of the uncached lookup. */
    method RequestCursor(shape: Shape) returns (cursor: Option<Cursor>)
      requires Valid()
      modifies `cursors
      ensures Valid()
      ensures cursor == Uncached(theme, entries, shape) && Answers(theme, entries, shape, cursor)
      // what was found is remembered, and nothing forgotten
      ensures old(cursors).Keys <= cursors.Keys
      ensures theme.Some? && HasName(theme.value, entries, shape) ==> shape in cursors
      decreases shape != ARROW
    {
      UncachedIff(theme, entries, shape, Uncached(theme, entries, shape));
      cursor := if shape in cursors then Some(cursors[shape]) else None;
      if cursor.None? {
        if theme.None? {
          return None;
        }
        FoundIffNamed(theme.value, entries, shape);
        var names := Names(entries, shape);
        var i := 0;
        while i < |names|
          invariant 0 <= i <= |names|
          invariant FirstAvailable(theme.value, names) == FirstAvailable(theme.value, names[i..])
          invariant cursors == old(cursors) && cursor.None?
        {
          if names[i] in theme.value.cursors {
            cursor := Some(theme.value.cursors[names[i]]);
            cursors := cursors[shape := cursor.value];
            break;
          }
          assert names[i..][1..] == names[i + 1..];
          i := i + 1;
        }
      }
      if cursor.None? && shape != ARROW {
        cursor := RequestCursor(ARROW);
      }
    }

    method CursorImage(shape: Shape, loaded: Option<Theme>) returns (image: Option<nat>)
      requires Valid()
      modifies `theme, `cursors
      ensures Valid() && theme == if old(theme).Some? then old(theme) else loaded
      ensures var c := Uncached(theme, entries, shape);
              image == if c.Some? && c.value in theme.value.images && theme.value.images[c.value] != []
                       then Some(theme.value.images[c.value][0]) else None
    {
      LoadTheme(loaded);
      if theme.None? {
        return None;
      }
      var cursor := RequestCursor(shape);
      if cursor.None? || cursor.value !in theme.value.images || theme.value.images[cursor.value] == [] {
        return None;
      }
      return Some(theme.value.images[cursor.value][0]);
    }
  }
}
