/** Searching a JSON schema for a property path whose end satisfies a test. */
module JsonSchema {
  import opened Wrappers

  datatype Json =
    | Null
    | Bool(flag: bool)
    | Integer(value: int)
    | Fraction(fraction: real)
    | Text(text: string)
    | Array(items: seq<Json>)
    | Object(fields: map<string, Json>)
  {
    predicate IsUnsigned() {
      Integer? && 0 <= value <= 0xFFFF_FFFF_FFFF_FFFF
    }

    predicate IsSigned() {
      Integer? && -0x8000_0000_0000_0000 <= value <= 0x7FFF_FFFF_FFFF_FFFF
    }
  }

  /** The six tests a search can end with. */
  datatype LeafTest =
    | EnumContains(required: seq<string>)
    | ItemsEnumContains(required: seq<string>)
    | MinItems(least: nat)
    | MaxItems(most: nat)
    | ItemsPattern(pattern: string)
    | Minimum(floor: int)

  /** The enum at an object lists every required value. */
  predicate ListsAll(fields: map<string, Json>, required: seq<string>) {
    && "enum" in fields && fields["enum"].Array?
    && forall r | r in required :: Text(r) in fields["enum"].items
  }

  /** The test applied to the object a search ends at. Only the array-items enum looks further down. */
  predicate Passes(schema: Json, test: LeafTest)
    requires schema.Object?
    decreases schema, 0
  {
    var fields := schema.fields;
    match test
    case EnumContains(required) => ListsAll(fields, required)
    case ItemsEnumContains(required) => "items" in fields && Search(fields["items"], [], EnumContains(required))
    case MinItems(least) => "minItems" in fields && fields["minItems"].IsUnsigned() && least <= fields["minItems"].value
    case MaxItems(most) => "maxItems" in fields && fields["maxItems"].IsUnsigned() && fields["maxItems"].value <= most
    case ItemsPattern(pattern) =>
      && "items" in fields && fields["items"].Object?
      && "pattern" in fields["items"].fields && fields["items"].fields["pattern"] == Text(pattern)
    case Minimum(floor) => "minimum" in fields && fields["minimum"].IsSigned() && floor <= fields["minimum"].value
  }

  /** The value a `properties` step on `name` leads to, if the object declares that property. */
  function Property(schema: Json, name: string): (child: Option<Json>)
    requires schema.Object?
    ensures child.Some? ==> child.value < schema
  {
    if "properties" in schema.fields && schema.fields["properties"].Object? && name in schema.fields["properties"].fields
    then Some(schema.fields["properties"].fields[name])
    else None
  }

  /** The search every `*_for_path` function performs, up to its test. An object met with an empty
      path is tested and not searched further; an array is always searched. */
  predicate Search(value: Json, path: seq<string>, test: LeafTest)
    decreases value, 1
  {
    match value
    case Object(fields) =>
      if path == [] then Passes(value, test)
      else
        || (var child := Property(value, path[0]); child.Some? && Search(child.value, path[1..], test))
        || exists key | key in fields :: Search(fields[key], path, test)
    case Array(items) => exists i | 0 <= i < |items| :: Search(items[i], path, test)
    case _ => false
  }

  // ----- where a search can end, as a route into the document

  datatype Step = Key(name: string) | Index(i: nat)

  function At(value: Json, route: seq<Step>): Option<Json> {
    if route == [] then Some(value)
    else
      match (value, route[0])
      case (Object(fields), Key(name)) => if name in fields then At(fields[name], route[1..]) else None
      case (Array(items), Index(i)) => if i < |items| then At(items[i], route[1..]) else None
      case _ => None
  }

  /** The route declares the properties of `path` one after another, as `properties` followed by
      the name, with any steps between them and only array steps after the last. */
  predicate Declares(route: seq<Step>, path: seq<string>)
    decreases |route|
  {
    if path == [] then forall step | step in route :: step.Index?
    else if route == [] then false
    else
      || (2 <= |route| && route[0] == Key("properties") && route[1] == Key(path[0]) && Declares(route[2..], path[1..]))
      || Declares(route[1..], path)
  }

  predicate EndsAt(value: Json, path: seq<string>, test: LeafTest, route: seq<Step>) {
    && Declares(route, path)
    && var end := At(value, route);
       end.Some? && end.value.Object? && Passes(end.value, test)
  }

  lemma {:induction false} SearchIsSound(value: Json, path: seq<string>, test: LeafTest) returns (route: seq<Step>)
    requires Search(value, path, test)
    ensures EndsAt(value, path, test, route)
    decreases value
  {
    match value
    case Object(fields) =>
      if path == [] {
        route := [];
      } else {
        var child := Property(value, path[0]);
        if child.Some? && Search(child.value, path[1..], test) {
          var rest := SearchIsSound(child.value, path[1..], test);
          route := [Key("properties"), Key(path[0])] + rest;
          assert route[2..] == rest && route[1..][1..] == rest;
          assert At(fields["properties"], route[1..]) == At(child.value, rest);
        } else {
          var key :| key in fields && Search(fields[key], path, test);
          var rest := SearchIsSound(fields[key], path, test);
          route := [Key(key)] + rest;
          assert route[1..] == rest;
        }
      }
    case Array(items) =>
      var i :| 0 <= i < |items| && Search(items[i], path, test);
      var rest := SearchIsSound(items[i], path, test);
      route := [Index(i)] + rest;
      assert route[1..] == rest;
    case _ =>
  }

  lemma {:induction false} SearchIsComplete(value: Json, path: seq<string>, test: LeafTest, route: seq<Step>)
    requires EndsAt(value, path, test, route)
    ensures Search(value, path, test)
    decreases |route|
  {
    if route != [] {
      var step, rest := route[0], route[1..];
      match value
      case Object(fields) =>
        assert step in route;
        if 2 <= |route| && step == Key("properties") && route[1] == Key(path[0]) && Declares(route[2..], path[1..]) {
          assert rest[0] == route[1] && rest[1..] == route[2..];
          assert At(value, route) == At(fields["properties"], rest);
          assert fields["properties"].Object? && path[0] in fields["properties"].fields;
          SearchIsComplete(fields["properties"].fields[path[0]], path[1..], test, route[2..]);
        } else {
          SearchIsComplete(fields[step.name], path, test, rest);
        }
      case Array(items) =>
        SearchIsComplete(items[step.i], path, test, rest);
      case _ =>
    }
  }

  /** The search is true exactly when some route into the document declares the path and ends at an
      object that passes the test. */
  lemma SearchFindsExactlyDeclaredPaths(value: Json, path: seq<string>, test: LeafTest)
    ensures Search(value, path, test) <==> exists route :: EndsAt(value, path, test, route)
  {
    if Search(value, path, test) {
      var route := SearchIsSound(value, path, test);
    }
    if route :| EndsAt(value, path, test, route) {
      SearchIsComplete(value, path, test, route);
    }
  }

  /** Anything found inside a document is found in it, as long as the path is not empty. */
  lemma SearchLooksEverywhere(value: Json, inside: Json, at: seq<Step>, path: seq<string>, test: LeafTest)
    requires path != [] && At(value, at) == Some(inside) && Search(inside, path, test)
    ensures Search(value, path, test)
  {
    var route := SearchIsSound(inside, path, test);
    AtAppend(value, at, route);
    DeclaresAfter(at, route, path);
    SearchIsComplete(value, path, test, at + route);
  }

  lemma {:induction false} AtAppend(value: Json, at: seq<Step>, route: seq<Step>)
    requires At(value, at).Some?
    ensures At(value, at + route) == At(At(value, at).value, route)
    decreases |at|
  {
    if at == [] {
      assert at + route == route;
    } else {
      assert (at + route)[1..] == at[1..] + route;
      match value
      case Object(fields) => AtAppend(fields[at[0].name], at[1..], route);
      case Array(items) => AtAppend(items[at[0].i], at[1..], route);
      case _ =>
    }
  }

  lemma {:induction false} DeclaresAfter(at: seq<Step>, route: seq<Step>, path: seq<string>)
    requires path != [] && Declares(route, path)
    ensures Declares(at + route, path)
  {
    if at == [] {
      assert at + route == route;
    } else {
      DeclaresAfter(at[1..], route, path);
      assert (at + route)[1..] == at[1..] + route;
    }
  }

  // ----- the general requirement search

  /** Some object anywhere in the document lists the key as required. */
  predicate RequiresKey(value: Json, key: string) {
    match value
    case Object(fields) => ListsRequired(value, key) || exists name | name in fields :: RequiresKey(fields[name], key)
    case Array(items) => exists i | 0 <= i < |items| :: RequiresKey(items[i], key)
    case _ => false
  }

  predicate ListsRequired(value: Json, key: string) {
    value.Object? && "required" in value.fields && value.fields["required"].Array? && Text(key) in value.fields["required"].items
  }

  lemma {:induction false} RequiredSomewhere(value: Json, key: string) returns (route: seq<Step>)
    requires RequiresKey(value, key)
    ensures At(value, route).Some? && ListsRequired(At(value, route).value, key)
  {
    if ListsRequired(value, key) {
      route := [];
    } else {
      match value
      case Object(fields) =>
        var name :| name in fields && RequiresKey(fields[name], key);
        var rest := RequiredSomewhere(fields[name], key);
        route := [Key(name)] + rest;
        assert route[1..] == rest;
      case Array(items) =>
        var i :| 0 <= i < |items| && RequiresKey(items[i], key);
        var rest := RequiredSomewhere(items[i], key);
        route := [Index(i)] + rest;
        assert route[1..] == rest;
    }
  }

  lemma {:induction false} RequiredIsFound(value: Json, key: string, route: seq<Step>)
    requires At(value, route).Some? && ListsRequired(At(value, route).value, key)
    ensures RequiresKey(value, key)
    decreases |route|
  {
    if route != [] {
      match value
      case Object(fields) => RequiredIsFound(fields[route[0].name], key, route[1..]);
      case Array(items) => RequiredIsFound(items[route[0].i], key, route[1..]);
      case _ =>
    }
  }

  lemma RequirementSearchIsExact(value: Json, key: string)
    ensures RequiresKey(value, key)
            <==> exists route, fields, items ::
                   && At(value, route) == Some(Object(fields)) && "required" in fields
                   && fields["required"] == Array(items) && Text(key) in items
  {
    if RequiresKey(value, key) {
      var route := RequiredSomewhere(value, key);
      var fields := At(value, route).value.fields;
      assert fields["required"] == Array(fields["required"].items);
    }
    if route, fields, items :|
      && At(value, route) == Some(Object(fields)) && "required" in fields
      && fields["required"] == Array(items) && Text(key) in items
    {
      RequiredIsFound(value, key, route);
    }
  }

  // ----- what the leaf tests ask

  /** Numbers: a declared whole number in range is compared with the bound, and its absence fails. */
  lemma BoundsAreRead(fields: map<string, Json>, v: int, bound: nat, floor: int)
    ensures Passes(Object(fields["minItems" := Integer(v)]), MinItems(bound)) <==> bound <= v <= 0xFFFF_FFFF_FFFF_FFFF
    ensures Passes(Object(fields["maxItems" := Integer(v)]), MaxItems(bound)) <==> 0 <= v <= bound && v <= 0xFFFF_FFFF_FFFF_FFFF
    ensures Passes(Object(fields["minimum" := Integer(v)]), Minimum(floor))
            <==> floor <= v && -0x8000_0000_0000_0000 <= v <= 0x7FFF_FFFF_FFFF_FFFF
    ensures "minItems" !in fields ==> !Passes(Object(fields), MinItems(bound))
    ensures "maxItems" !in fields ==> !Passes(Object(fields), MaxItems(bound))
    ensures "minimum" !in fields ==> !Passes(Object(fields), Minimum(floor))
  {
  }

  /** Texts: an enum must list every required value, an array's items must be described by one that
      does, and its pattern must be the one asked for. */
  lemma TextsAreRead(fields: map<string, Json>, items: seq<Json>, required: seq<string>, pattern: string, other: string)
    ensures Passes(Object(fields["enum" := Array(items)]), EnumContains(required)) <==> forall r | r in required :: Text(r) in items
    ensures "enum" !in fields ==> !Passes(Object(fields), EnumContains(required))
    ensures Passes(Object(fields["items" := Object(map["enum" := Array(items)])]), ItemsEnumContains(required))
            <==> forall r | r in required :: Text(r) in items
    ensures Passes(Object(fields["items" := Object(map["pattern" := Text(other)])]), ItemsPattern(pattern)) <==> other == pattern
    ensures "items" !in fields ==> !Passes(Object(fields), ItemsEnumContains(required)) && !Passes(Object(fields), ItemsPattern(pattern))
  {
    var inner := Object(map["enum" := Array(items)]);
    assert Search(inner, [], EnumContains(required)) == Passes(inner, EnumContains(required));
  }
}
