/**
 * The JSON tree builder (`json.kt`): a recursive-descent producer over the
 * token stream of a JSON lexer that builds the value tree and gives every
 * node its path from the root: `<root>`, `path.field`, `path[index]`.
 *
 * The lexer is abstracted into a sequence of tokens, each carrying the
 * location the lexer reports while it is the current token. The parser's
 * state is a cursor over that sequence (`JsonCursor`); its methods
 * `TokenProduction`, `ObjectProduction` and `ArrayProduction` advance it as
 * the Kotlin objects advance the Jackson parser, and each is proved to
 * compute what the pure grammar functions `ParseValue`, `ParseFieldList` and
 * `ParseElementList` describe.
 */
module Json {
  import opened Validation
  import opened Model
  import opened Text

  /** The Jackson token kinds the producer distinguishes; a field name and
      a scalar carry their text or value. */
  datatype TokenKind =
    | NotAvailable
    | StartObject
    | EndObject
    | StartArray
    | EndArray
    | FieldName(name: string)
    | ValueString(text: string)
    | ValueNumberInt(long: int)
    | ValueNumberFloat(double: Double)
    | ValueTrue
    | ValueFalse
    | ValueNull
    | ValueEmbeddedObject

  /** A token and the location (`currentLocation`) the lexer reports for it. */
  datatype Token = Token(kind: TokenKind, line: int, col: int)

  /**
   * Why the producer gives up, with the index of the offending token (the
   * token count when the input ended): `NOT_AVAILABLE`, a token that cannot
   * start a value (including the end of input), or an object member that does
   * not start with a field name (a failed `require`).
   */
  datatype JsonError =
    | NotAvailableAt(at: nat)
    | UnexpectedTokenAt(at: nat)
    | FieldNameExpectedAt(at: nat)

  /** The outcome of a grammar function: what was read and the index of its
      last token, or the error. */
  datatype Parse<T> = Parsed(value: T, last: nat) | Failed(error: JsonError)

  /** One member of an object, in input order. */
  datatype Field = Field(name: string, value: Node)

  /** `JsonLocation.toPos(source)`. */
  function Loc(t: Token, source: string): Pos {
    LineColPos(t.line, t.col, source)
  }

  /** The value a producer returns, or the error it throws. */
  function Outcome(p: Parse<Node>): Validated<Node, JsonError> {
    match p
    case Parsed(v, _) => Valid(v)
    case Failed(e) => Invalid(e)
  }

  /** Filling `mutableMapOf` member by member: a later member with the same
      name replaces the earlier one. */
  function MapOfFields(fields: seq<Field>): map<string, Node>
    decreases |fields|
  {
    if fields == [] then map[]
    else MapOfFields(fields[..|fields| - 1])[fields[|fields| - 1].name := fields[|fields| - 1].value]
  }

  /** One turn of the member loop: a field name, then its value. */
  lemma FieldListStep(ts: seq<Token>, j: nat, path: string, source: string, acc: seq<Field>, v: Node, last: nat)
    requires j + 1 < |ts| && ts[j + 1].kind.FieldName?
    requires ParseValue(ts, j + 2, path + "." + ts[j + 1].kind.name, source) == Parsed(v, last)
    ensures ParseFieldList(ts, j, path, source, acc) == ParseFieldList(ts, last, path, source, acc + [Field(ts[j + 1].kind.name, v)])
  {
  }

  /** One turn of the element loop: the value at the next position. */
  lemma ElementListStep(ts: seq<Token>, j: nat, path: string, source: string, acc: seq<Node>, v: Node, last: nat)
    requires j + 1 < |ts| && ts[j + 1].kind != EndArray
    requires ParseValue(ts, j + 1, path + "[" + NatToString(|acc|) + "]", source) == Parsed(v, last)
    ensures ParseElementList(ts, j, path, source, acc) == ParseElementList(ts, last, path, source, acc + [v])
  {
  }

  /** Reading one more member stores its value under its name. */
  lemma MapOfFieldsSnoc(fields: seq<Field>, f: Field)
    ensures MapOfFields(fields + [f]) == MapOfFields(fields)[f.name := f.value]
  {
    assert (fields + [f])[..|fields|] == fields;
  }

  /** Every member's value is a node at `path.name`. */
  predicate FieldPaths(fields: seq<Field>, path: string) {
    forall k | 0 <= k < |fields| :: IsDefined(fields[k].value) && fields[k].value.path == path + "." + fields[k].name
  }

  /** The element at position `k` is a node at `path[k]`. */
  predicate ElementPaths(elements: seq<Node>, path: string) {
    forall k | 0 <= k < |elements| :: IsDefined(elements[k]) && elements[k].path == path + "[" + NatToString(k) + "]"
  }

  /** A member at its own path extends members at theirs. */
  lemma FieldPathsSnoc(fields: seq<Field>, f: Field, path: string)
    requires FieldPaths(fields, path)
    requires IsDefined(f.value) && f.value.path == path + "." + f.name
    ensures FieldPaths(fields + [f], path)
  {
    var fs := fields + [f];
    assert forall k | 0 <= k < |fields| :: fs[k] == fields[k];
    assert fs[|fields|] == f;
  }

  /** An element at path `path[n]`, with `n` the count so far, extends
      elements at theirs. */
  lemma ElementPathsSnoc(elements: seq<Node>, v: Node, path: string)
    requires ElementPaths(elements, path)
    requires IsDefined(v) && v.path == path + "[" + NatToString(|elements|) + "]"
    ensures ElementPaths(elements + [v], path)
  {
    var es := elements + [v];
    assert forall k | 0 <= k < |elements| :: es[k] == elements[k];
    assert es[|elements|] == v;
  }

  /**
   * `TokenProduction` on the token at index `i` (`i == |ts|` is the end of
   * input): an object or array is read by its production, a scalar becomes
   * the node of its kind at `path` and the token's location, and any other
   * token is an error. A node read carries `path` and the location of its
   * first token.
   */
  function ParseValue(ts: seq<Token>, i: nat, path: string, source: string): (r: Parse<Node>)
    requires i <= |ts|
    ensures r.Parsed? ==> i <= r.last < |ts|
    ensures r.Parsed? ==> IsDefined(r.value) && r.value.path == path && r.value.pos == Loc(ts[i], source)
    decreases |ts| - i, 1
  {
    if i == |ts| then Failed(UnexpectedTokenAt(i))
    else
      var at := Loc(ts[i], source);
      match ts[i].kind
      case NotAvailable => Failed(NotAvailableAt(i))
      case StartObject =>
        (match ParseFieldList(ts, i, path, source, [])
         case Parsed(fields, last) => Parsed(MapNode(MapOfFields(fields), at, path), last)
         case Failed(e) => Failed(e))
      case StartArray =>
        (match ParseElementList(ts, i, path, source, [])
         case Parsed(elements, last) => Parsed(ArrayNode(elements, at, path), last)
         case Failed(e) => Failed(e))
      case ValueString(s) => Parsed(StringNode(s, at, path), i)
      case ValueNumberInt(n) => Parsed(LongNode(n, at, path), i)
      case ValueNumberFloat(d) => Parsed(DoubleNode(d, at, path), i)
      case ValueTrue => Parsed(BooleanNode(true, at, path), i)
      case ValueFalse => Parsed(BooleanNode(false, at, path), i)
      case ValueNull => Parsed(NullNode(at, path), i)
      case _ => Failed(UnexpectedTokenAt(i))
  }

  /**
   * The loop of `ObjectProduction` after the token at index `j`, with the
   * members `acc` read so far: the next token ends the object, or it must be
   * a field name `f` whose value, at `path.f`, follows it.
   */
  function ParseFieldList(ts: seq<Token>, j: nat, path: string, source: string, acc: seq<Field>): (r: Parse<seq<Field>>)
    requires j < |ts|
    ensures r.Parsed? ==> j < r.last < |ts| && ts[r.last].kind == EndObject
    decreases |ts| - j, 0
  {
    var next := j + 1;
    if next < |ts| && ts[next].kind == EndObject then Parsed(acc, next)
    else if next == |ts| || !ts[next].kind.FieldName? then Failed(FieldNameExpectedAt(next))
    else
      var name := ts[next].kind.name;
      match ParseValue(ts, next + 1, path + "." + name, source)
      case Failed(e) => Failed(e)
      case Parsed(v, last) =>
        ParseFieldList(ts, last, path, source, acc + [Field(name, v)])
  }

  /**
   * The loop of `ArrayProduction` after the token at index `j`, with the
   * elements `acc` read so far: the next token ends the array, or it starts
   * the element at position `|acc|`, read at `path[|acc|]`.
   */
  function ParseElementList(ts: seq<Token>, j: nat, path: string, source: string, acc: seq<Node>): (r: Parse<seq<Node>>)
    requires j < |ts|
    ensures r.Parsed? ==> j < r.last < |ts| && ts[r.last].kind == EndArray
    decreases |ts| - j, 0
  {
    var next := j + 1;
    if next < |ts| && ts[next].kind == EndArray then Parsed(acc, next)
    else
      match ParseValue(ts, next, path + "[" + NatToString(|acc|) + "]", source)
      case Failed(e) => Failed(e)
      case Parsed(v, last) =>
        ParseElementList(ts, last, path, source, acc + [v])
  }

  /** The Jackson parser over a token sequence: `pos` is the index of the
      current token, `|tokens|` once the input is exhausted. */
  class JsonCursor {
    const tokens: seq<Token>
    var pos: nat

    /** A parser positioned on the first token, as `createParser` followed
        by one `nextToken()` leaves it. */
    constructor (tokens: seq<Token>)
      ensures this.tokens == tokens && pos == 0
    {
      this.tokens := tokens;
      pos := 0;
    }

    /** `currentToken()`: absent once the input is exhausted. */
    function Current(): Option<TokenKind>
      reads this
    {
      if pos < |tokens| then Some(tokens[pos].kind) else None
    }

    /** `nextToken()`: moves to the following token and returns it; at the
        end of input it stays there and returns nothing. */
    method NextToken() returns (k: Option<TokenKind>)
      modifies this
      ensures pos == if old(pos) < |tokens| then old(pos) + 1 else old(pos)
      ensures k == Current()
    {
      if pos < |tokens| {
        pos := pos + 1;
      }
      k := Current();
    }

    /**
     * `TokenProduction(parser, path, source)`: reads the value starting at the
     * current token, as `ParseValue` describes, and leaves the cursor on the
     * value's last token.
     */
    method TokenProduction(path: string, source: string) returns (r: Validated<Node, JsonError>)
      requires pos <= |tokens|
      modifies this
      ensures r == Outcome(ParseValue(tokens, old(pos), path, source))
      ensures r.Valid? ==> pos == ParseValue(tokens, old(pos), path, source).last
      ensures pos <= |tokens|
      decreases |tokens| - pos, 1
    {
      var current := Current();
      if current.None? {
        return Invalid(UnexpectedTokenAt(pos));
      }
      var at := Loc(tokens[pos], source);
      match current.value {
        case NotAvailable => r := Invalid(NotAvailableAt(pos));
        case StartObject => r := ObjectProduction(path, source);
        case StartArray => r := ArrayProduction(path, source);
        case ValueString(s) => r := Valid(StringNode(s, at, path));
        case ValueNumberInt(n) => r := Valid(LongNode(n, at, path));
        case ValueNumberFloat(d) => r := Valid(DoubleNode(d, at, path));
        case ValueTrue => r := Valid(BooleanNode(true, at, path));
        case ValueFalse => r := Valid(BooleanNode(false, at, path));
        case ValueNull => r := Valid(NullNode(at, path));
        case _ => r := Invalid(UnexpectedTokenAt(pos));
      }
    }

    /**
     * `ObjectProduction(parser, path, source)`: from the `START_OBJECT` token,
     * reads members until `END_OBJECT`, storing each value under its field
     * name; the map node carries `path` and the opening token's location.
     */
    method ObjectProduction(path: string, source: string) returns (r: Validated<Node, JsonError>)
      requires pos < |tokens| && tokens[pos].kind == StartObject
      modifies this
      ensures r == Outcome(ParseValue(tokens, old(pos), path, source))
      ensures r.Valid? ==> pos == ParseValue(tokens, old(pos), path, source).last
      ensures pos <= |tokens|
      decreases |tokens| - pos, 0
    {
      var start := pos;
      var loc := Loc(tokens[pos], source);
      var obj: map<string, Node> := map[];
      ghost var fields: seq<Field> := [];
      // `j` is the token just before the cursor; what the loop still reads,
      // from there with the members so far, is what it reads from the start.
      ghost var goal := ParseFieldList(tokens, start, path, source, []);
      ghost var j := start;
      var next := NextToken();
      while next != Some(EndObject)
        invariant start < pos <= |tokens| && pos == j + 1
        invariant next == Current()
        invariant obj == MapOfFields(fields)
        invariant goal == ParseFieldList(tokens, j, path, source, fields)
        decreases |tokens| - pos
      {
        if !(next.Some? && next.value.FieldName?) {
          assert ParseFieldList(tokens, j, path, source, fields) == Failed(FieldNameExpectedAt(pos));
          return Invalid(FieldNameExpectedAt(pos));
        }
        var fieldName := next.value.name;
        next := NextToken();
        ghost var pv := ParseValue(tokens, pos, path + "." + fieldName, source);
        var value := TokenProduction(path + "." + fieldName, source);
        if value.Invalid? {
          assert ParseFieldList(tokens, j, path, source, fields) == Failed(pv.error);
          return value;
        }
        FieldListStep(tokens, j, path, source, fields, value.value, pos);
        MapOfFieldsSnoc(fields, Field(fieldName, value.value));
        obj := obj[fieldName := value.value];
        fields := fields + [Field(fieldName, value.value)];
        j := pos;
        next := NextToken();
      }
      assert ParseFieldList(tokens, j, path, source, fields) == Parsed(fields, pos);
      r := Valid(MapNode(obj, loc, path));
    }

    /**
     * `ArrayProduction(parser, path, source)`: from the `START_ARRAY` token,
     * reads elements until `END_ARRAY`, the element counted `index` at
     * `path[index]`; the list node carries `path` and the opening token's
     * location.
     */
    method ArrayProduction(path: string, source: string) returns (r: Validated<Node, JsonError>)
      requires pos < |tokens| && tokens[pos].kind == StartArray
      modifies this
      ensures r == Outcome(ParseValue(tokens, old(pos), path, source))
      ensures r.Valid? ==> pos == ParseValue(tokens, old(pos), path, source).last
      ensures pos <= |tokens|
      decreases |tokens| - pos, 0
    {
      var start := pos;
      var loc := Loc(tokens[pos], source);
      var list: seq<Node> := [];
      var index := 0;
      // `j` is the token just before the cursor, as in `ObjectProduction`.
      ghost var goal := ParseElementList(tokens, start, path, source, []);
      ghost var j := start;
      var next := NextToken();
      while next != Some(EndArray)
        invariant start < pos <= |tokens| && pos == j + 1
        invariant next == Current()
        invariant index == |list|
        invariant goal == ParseElementList(tokens, j, path, source, list)
        decreases |tokens| - pos
      {
        ghost var pv := ParseValue(tokens, pos, path + "[" + NatToString(index) + "]", source);
        var value := TokenProduction(path + "[" + NatToString(index) + "]", source);
        if value.Invalid? {
          assert ParseElementList(tokens, j, path, source, list) == Failed(pv.error);
          return value;
        }
        ElementListStep(tokens, j, path, source, list, value.value, pos);
        list := list + [value.value];
        index := index + 1;
        j := pos;
        next := NextToken();
      }
      assert Current() == Some(EndArray);
      assert ParseElementList(tokens, j, path, source, list) == Parsed(list, pos);
      r := Valid(ArrayNode(list, loc, path));
    }
  }

  /** `JsonParser.load`: the value that starts at the first token, at path `<root>`. */
  method Load(tokens: seq<Token>, source: string) returns (r: Validated<Node, JsonError>)
    ensures r == Outcome(ParseValue(tokens, 0, "<root>", source))
  {
    var parser := new JsonCursor(tokens);
    r := parser.TokenProduction("<root>", source);
  }

  /** The keys of the object are exactly the field names read. */
  lemma {:induction false} MapOfFieldsKeys(fields: seq<Field>)
    ensures MapOfFields(fields).Keys == set k | 0 <= k < |fields| :: fields[k].name
    decreases |fields|
  {
    if fields != [] {
      var init := fields[..|fields| - 1];
      MapOfFieldsKeys(init);
      forall name | name in (set k | 0 <= k < |fields| :: fields[k].name)
        ensures name in MapOfFields(fields)
      {
        var k :| 0 <= k < |fields| && fields[k].name == name;
        if k < |init| { assert init[k].name == name; }
      }
    }
  }

  /** Under each name the object holds the value of the last member of that name. */
  lemma {:induction false} MapOfFieldsLastWins(fields: seq<Field>)
    ensures forall name | name in MapOfFields(fields) ::
              exists k | 0 <= k < |fields| ::
                && fields[k].name == name && MapOfFields(fields)[name] == fields[k].value
                && forall l | k < l < |fields| :: fields[l].name != name
    decreases |fields|
  {
    if fields != [] {
      var init, last := fields[..|fields| - 1], fields[|fields| - 1];
      MapOfFieldsLastWins(init);
      forall name | name in MapOfFields(fields)
        ensures exists k | 0 <= k < |fields| ::
                  && fields[k].name == name && MapOfFields(fields)[name] == fields[k].value
                  && forall l | k < l < |fields| :: fields[l].name != name
      {
        if name == last.name {
          assert fields[|fields| - 1].name == name;
        } else {
          var k :| 0 <= k < |init| && init[k].name == name && MapOfFields(init)[name] == init[k].value
            && forall l | k < l < |init| :: init[l].name != name;
          assert fields[k] == init[k];
          assert forall l | k < l < |fields| :: fields[l].name != name by {
            forall l | k < l < |fields| ensures fields[l].name != name {
              if l < |init| { assert fields[l] == init[l]; }
            }
          }
        }
      }
    }
  }

  /** The member loop only appends: the members read before stay, in order,
      as a prefix of the result. */
  lemma {:induction false} FieldListKeepsPrefix(ts: seq<Token>, j: nat, path: string, source: string, acc: seq<Field>)
    requires j < |ts|
    ensures var r := ParseFieldList(ts, j, path, source, acc);
      r.Parsed? ==> |acc| <= |r.value| && r.value[..|acc|] == acc
    decreases |ts| - j
  {
    var next := j + 1;
    if next < |ts| && ts[next].kind != EndObject && ts[next].kind.FieldName? {
      var name := ts[next].kind.name;
      var pv := ParseValue(ts, next + 1, path + "." + name, source);
      if pv.Parsed? {
        var acc' := acc + [Field(name, pv.value)];
        FieldListKeepsPrefix(ts, pv.last, path, source, acc');
        var r := ParseFieldList(ts, pv.last, path, source, acc');
        if r.Parsed? {
          assert r.value[..|acc|] == r.value[..|acc'|][..|acc|];
          assert acc'[..|acc|] == acc;
        }
      }
    }
  }

  /** The element loop only appends: the elements read before stay, in
      order, as a prefix of the result. */
  lemma {:induction false} ElementListKeepsPrefix(ts: seq<Token>, j: nat, path: string, source: string, acc: seq<Node>)
    requires j < |ts|
    ensures var r := ParseElementList(ts, j, path, source, acc);
      r.Parsed? ==> |acc| <= |r.value| && r.value[..|acc|] == acc
    decreases |ts| - j
  {
    var next := j + 1;
    if !(next < |ts| && ts[next].kind == EndArray) {
      var pv := ParseValue(ts, next, path + "[" + NatToString(|acc|) + "]", source);
      if pv.Parsed? {
        var acc' := acc + [pv.value];
        ElementListKeepsPrefix(ts, pv.last, path, source, acc');
        var r := ParseElementList(ts, pv.last, path, source, acc');
        if r.Parsed? {
          assert r.value[..|acc|] == r.value[..|acc'|][..|acc|];
          assert acc'[..|acc|] == acc;
        }
      }
    }
  }

  /** Each member of an object read at `path` sits at `path.name`. */
  lemma {:induction false} FieldListPaths(ts: seq<Token>, j: nat, path: string, source: string, acc: seq<Field>)
    requires j < |ts|
    requires FieldPaths(acc, path)
    ensures ParseFieldList(ts, j, path, source, acc).Parsed? ==> FieldPaths(ParseFieldList(ts, j, path, source, acc).value, path)
    decreases |ts| - j
  {
    var next := j + 1;
    if next < |ts| && ts[next].kind != EndObject && ts[next].kind.FieldName? {
      var name := ts[next].kind.name;
      var pv := ParseValue(ts, next + 1, path + "." + name, source);
      if pv.Parsed? {
        FieldPathsSnoc(acc, Field(name, pv.value), path);
        FieldListPaths(ts, pv.last, path, source, acc + [Field(name, pv.value)]);
      }
    }
  }

  /** The element at position `k` of an array read at `path` sits at `path[k]`. */
  lemma {:induction false} ElementListPaths(ts: seq<Token>, j: nat, path: string, source: string, acc: seq<Node>)
    requires j < |ts|
    requires ElementPaths(acc, path)
    ensures ParseElementList(ts, j, path, source, acc).Parsed? ==> ElementPaths(ParseElementList(ts, j, path, source, acc).value, path)
    decreases |ts| - j
  {
    var next := j + 1;
    if !(next < |ts| && ts[next].kind == EndArray) {
      var pv := ParseValue(ts, next, path + "[" + NatToString(|acc|) + "]", source);
      if pv.Parsed? {
        ElementPathsSnoc(acc, pv.value, path);
        ElementListPaths(ts, pv.last, path, source, acc + [pv.value]);
      }
    }
  }

  /** The value `load` returns sits at `<root>`, at its first token's location. */
  lemma RootPath(ts: seq<Token>, source: string)
    requires Outcome(ParseValue(ts, 0, "<root>", source)).Valid?
    ensures var v := Outcome(ParseValue(ts, 0, "<root>", source)).value;
      IsDefined(v) && v.path == "<root>" && v.pos == Loc(ts[0], source)
  {
  }

  /**
   * An object read at `path`: its keys are the field names read, under each
   * name is the value of the last member so named (a repeated name overwrites
   * the earlier value), and that value sits at `path.name`.
   */
  lemma ObjectMembers(ts: seq<Token>, i: nat, path: string, source: string)
    requires i < |ts| && ts[i].kind == StartObject
    requires ParseValue(ts, i, path, source).Parsed?
    ensures var node, fields := ParseValue(ts, i, path, source).value, ParseFieldList(ts, i, path, source, []).value;
      && node.MapNode?
      && node.entries.Keys == (set k | 0 <= k < |fields| :: fields[k].name)
      && (forall name | name in node.entries ::
            exists k | 0 <= k < |fields| ::
              && fields[k].name == name && node.entries[name] == fields[k].value
              && forall l | k < l < |fields| :: fields[l].name != name)
      && (forall name | name in node.entries :: IsDefined(node.entries[name]) && node.entries[name].path == path + "." + name)
  {
    var fields := ParseFieldList(ts, i, path, source, []).value;
    MapOfFieldsKeys(fields);
    MapOfFieldsLastWins(fields);
    FieldListPaths(ts, i, path, source, []);
  }

  /**
   * An array read at `path`: its element at position `k` sits at `path[k]`,
   * so no two elements share a path.
   */
  lemma ArrayElements(ts: seq<Token>, i: nat, path: string, source: string)
    requires i < |ts| && ts[i].kind == StartArray
    requires ParseValue(ts, i, path, source).Parsed?
    ensures var node := ParseValue(ts, i, path, source).value;
      && node.ArrayNode?
      && ElementPaths(node.elements, path)
      && forall k, l | 0 <= k < l < |node.elements| :: node.elements[k].path != node.elements[l].path
  {
    var es := ParseValue(ts, i, path, source).value.elements;
    ElementListPaths(ts, i, path, source, []);
    forall k, l | 0 <= k < l < |es| ensures es[k].path != es[l].path {
      NatToStringInjective(k, l);
      BracketedDiffer(path, NatToString(k), NatToString(l));
    }
  }

  /** Different indices between the same brackets give different paths. */
  lemma BracketedDiffer(path: string, a: string, b: string)
    requires a != b
    ensures path + "[" + a + "]" != path + "[" + b + "]"
  {
    if |a| == |b| {
      var m :| 0 <= m < |a| && a[m] != b[m];
      assert (path + "[" + a + "]")[|path| + 1 + m] == a[m];
      assert (path + "[" + b + "]")[|path| + 1 + m] == b[m];
    }
  }

  /**
   * The scalar tokens: an integer becomes a long node, a float a double node,
   * `true` and `false` boolean nodes with that value, `null` a null node and a
   * string a string node, each at `path` and the token's location and read
   * from that one token.
   */
  lemma ScalarTokens(ts: seq<Token>, i: nat, path: string, source: string)
    requires i < |ts|
    ensures var r, at := ParseValue(ts, i, path, source), Loc(ts[i], source);
      && (ts[i].kind.ValueNumberInt? ==> r == Parsed(LongNode(ts[i].kind.long, at, path), i))
      && (ts[i].kind.ValueNumberFloat? ==> r == Parsed(DoubleNode(ts[i].kind.double, at, path), i))
      && (ts[i].kind == ValueTrue ==> r == Parsed(BooleanNode(true, at, path), i))
      && (ts[i].kind == ValueFalse ==> r == Parsed(BooleanNode(false, at, path), i))
      && (ts[i].kind == ValueNull ==> r == Parsed(NullNode(at, path), i))
      && (ts[i].kind.ValueString? ==> r == Parsed(StringNode(ts[i].kind.text, at, path), i))
  {
  }

  /**
   * The errors: the end of input or a token that cannot start a value is
   * unexpected, `NOT_AVAILABLE` is reported as such, and inside an object a
   * token other than a field name or `END_OBJECT` breaks the requirement.
   */
  lemma ParseErrors(ts: seq<Token>, i: nat, path: string, source: string)
    requires i <= |ts|
    ensures i == |ts| ==> ParseValue(ts, i, path, source) == Failed(UnexpectedTokenAt(i))
    ensures i < |ts| && ts[i].kind == NotAvailable ==> ParseValue(ts, i, path, source) == Failed(NotAvailableAt(i))
    ensures i < |ts| && (ts[i].kind.FieldName? || ts[i].kind in {EndObject, EndArray, ValueEmbeddedObject}) ==>
              ParseValue(ts, i, path, source) == Failed(UnexpectedTokenAt(i))
    ensures i + 1 < |ts| && ts[i].kind == StartObject && !ts[i + 1].kind.FieldName? && ts[i + 1].kind != EndObject ==>
              ParseValue(ts, i, path, source) == Failed(FieldNameExpectedAt(i + 1))
  {
  }

  /** `{"a": 1, "a": true}`: the later member overwrites the earlier. */
  lemma DuplicateFieldOverwrites(source: string)
    ensures var ts := [Token(StartObject, 1, 1), Token(FieldName("a"), 1, 2), Token(ValueNumberInt(1), 1, 7),
                       Token(FieldName("a"), 1, 10), Token(ValueTrue, 1, 15), Token(EndObject, 1, 19)];
      ParseValue(ts, 0, "<root>", source)
      == Parsed(MapNode(map["a" := BooleanNode(true, LineColPos(1, 15, source), "<root>.a")], LineColPos(1, 1, source), "<root>"), 5)
  {
    var ts := [Token(StartObject, 1, 1), Token(FieldName("a"), 1, 2), Token(ValueNumberInt(1), 1, 7),
               Token(FieldName("a"), 1, 10), Token(ValueTrue, 1, 15), Token(EndObject, 1, 19)];
    var one := LongNode(1, LineColPos(1, 7, source), "<root>.a");
    var yes := BooleanNode(true, LineColPos(1, 15, source), "<root>.a");
    var fields := [Field("a", one), Field("a", yes)];
    assert "<root>" + "." + "a" == "<root>.a";
    assert ParseValue(ts, 4, "<root>.a", source) == Parsed(yes, 4);
    assert ParseValue(ts, 2, "<root>.a", source) == Parsed(one, 2);
    assert [Field("a", one)] + [Field("a", yes)] == fields;
    assert [] + [Field("a", one)] == [Field("a", one)];
    assert ParseFieldList(ts, 4, "<root>", source, fields) == Parsed(fields, 5);
    assert ParseFieldList(ts, 2, "<root>", source, [Field("a", one)]) == Parsed(fields, 5);
    assert ParseFieldList(ts, 0, "<root>", source, []) == Parsed(fields, 5);
    MapOfFieldsSnoc([], Field("a", one));
    MapOfFieldsSnoc([Field("a", one)], Field("a", yes));
    assert MapOfFields(fields) == map["a" := one]["a" := yes] == map["a" := yes];
    assert ParseValue(ts, 0, "<root>", source) == Parsed(MapNode(MapOfFields(fields), LineColPos(1, 1, source), "<root>"), 5);
  }
}
