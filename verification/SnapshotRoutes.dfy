/**
 * What a snapshot records, independently of how it is flattened: one entry for every leaf that a
 * route of steps through fields, elements and instances leads to, named by the route and in the
 * order of the routes.
 */
module SnapshotRoutes {
  import opened Values
  import opened StorageModel
  import opened Snapshots
  import opened Common

  // ----- Leaves -----

  /** The elementary value is recorded in this form: numbers and texts are kept. */
  predicate Records(v: Value, h: HistorianValue)
  {
    match h
    case BoolValue(flag) => v.Bool? && v.flag == flag
    case Integer(n) =>
      || (v.SInt? && v.sint == n) || (v.Int? && v.int_ == n) || (v.DInt? && v.dint == n) || (v.LInt? && v.lint == n)
      || (v.Ticks? && v.ticks == n)
    case Unsigned(n) =>
      || (v.USInt? && v.usint == n) || (v.UInt? && v.uint == n) || (v.UDInt? && v.udint == n) || (v.ULInt? && v.ulint == n)
      || (v.Byte? && v.byte == n) || (v.Word? && v.word == n) || (v.DWord? && v.dword == n) || (v.LWord? && v.lword == n)
    case Float32(bits) => v.Real? && v.bits32 == bits
    case Float64(bits) => v.LReal? && v.bits64 == bits
    case StringValue(text) =>
      || (v.Text? && v.text == text) || (v.Enum? && v.variant == text)
      || (|text| == 1 && ((v.Char? && v.char_ == text[0] as int) || (v.WChar? && v.wchar == text[0] as int)))
  }

  lemma RecordsExactly(v: Value, h: HistorianValue)
    ensures ToHistorianValue(v) == Some(h) <==> Records(v, h)
  {
    if v.WChar? && h.StringValue? && |h.text| == 1 {
      assert h.text == [h.text[0]];
    }
    if v.Char? && h.StringValue? && |h.text| == 1 {
      assert h.text == [h.text[0]];
    }
  }

  /** The number that a text of digits spells. */
  function Spelled(text: string): int
  {
    if text == [] then 0 else 10 * Spelled(text[..|text| - 1]) + (text[|text| - 1] as int - '0' as int)
  }

  /** An index is written in decimal digits, without a leading zero. */
  lemma {:induction false} DecimalSpells(n: nat)
    ensures Spelled(Decimal(n)) == n
    ensures Decimal(n) != [] && forall k :: 0 <= k < |Decimal(n)| ==> '0' <= Decimal(n)[k] <= '9'
    ensures Decimal(n)[0] == '0' ==> n == 0
  {
    if n >= 10 {
      DecimalSpells(n / 10);
      assert Decimal(n)[..|Decimal(n)| - 1] == Decimal(n / 10);
    }
  }

  // ----- Routes -----

  /** A value under its path. */
  datatype Node = Node(path: string, value: Value)

  /** The values directly inside a value; an instance holds its variables. */
  function Inside(s: Storage, n: Node): seq<Node>
  {
    match n.value
    case Struct(_, fields) => Fields(n.path, fields)
    case Array(elements, _) => seq(|elements|, k requires 0 <= k < |elements| => Node(n.path + "[" + Decimal(k) + "]", elements[k]))
    case Instance(id) => if id in s.instances then Fields(n.path, s.instances[id].variables) else []
    case _ => []
  }

  function Fields(path: string, slots: seq<Slot>): seq<Node>
  {
    seq(|slots|, k requires 0 <= k < |slots| => Node(path + "." + slots[k].name, slots[k].value))
  }

  /** The route, a position at each level, leads from the node to a leaf recorded as `x`. */
  ghost predicate Leads(s: Storage, n: Node, route: seq<nat>, x: Recorded)
    decreases |route|, 1
  {
    if route == [] then x.path == n.path && Records(n.value, x.value)
    else LeadsAmong(s, Inside(s, n), route, x)
  }

  /** The route leads from one of the nodes to a leaf. */
  ghost predicate LeadsAmong(s: Storage, nodes: seq<Node>, route: seq<nat>, x: Recorded)
    requires route != []
    decreases |route|, 0
  {
    route[0] < |nodes| && Leads(s, nodes[route[0]], route[1..], x)
  }

  /** The first difference decides. */
  predicate Before(a: seq<nat>, b: seq<nat>)
  {
    b != [] && (a == [] || a[0] < b[0] || (a[0] == b[0] && Before(a[1..], b[1..])))
  }

  ghost predicate Ordered(routes: seq<seq<nat>>)
  {
    forall i, j :: 0 <= i < j < |routes| ==> Before(routes[i], routes[j])
  }

  /** The entries are those of all the leaves below the node, in the order of their routes. */
  ghost predicate Lists(s: Storage, n: Node, recorded: seq<Recorded>, routes: seq<seq<nat>>)
  {
    && |routes| == |recorded| && Ordered(routes)
    && (forall i :: 0 <= i < |routes| ==> Leads(s, n, routes[i], recorded[i]))
    && forall route, x :: Leads(s, n, route, x) ==> route in routes
  }

  /** The same of the nodes from position `from` on. */
  ghost predicate ListsFrom(s: Storage, nodes: seq<Node>, from: nat, recorded: seq<Recorded>, routes: seq<seq<nat>>)
  {
    && |routes| == |recorded| && Ordered(routes)
    && (forall i :: 0 <= i < |routes| ==> routes[i] != [] && routes[i][0] >= from && LeadsAmong(s, nodes, routes[i], recorded[i]))
    && forall route, x :: route != [] && route[0] >= from && LeadsAmong(s, nodes, route, x) ==> route in routes
  }

  function Prefixed(k: nat, routes: seq<seq<nat>>): (r: seq<seq<nat>>)
    ensures |r| == |routes|
    ensures forall i :: 0 <= i < |r| ==> r[i] == [k] + routes[i]
  {
    seq(|routes|, i requires 0 <= i < |routes| => [k] + routes[i])
  }

  lemma PrefixedOrdered(from: nat, first: seq<seq<nat>>, routes: seq<seq<nat>>)
    requires Ordered(first) && Ordered(routes)
    requires forall i :: 0 <= i < |routes| ==> routes[i] != [] && routes[i][0] > from
    ensures Ordered(Prefixed(from, first) + routes)
  {
    var all := Prefixed(from, first) + routes;
    forall i | 0 <= i < |first| ensures all[i][0] == from && all[i][1..] == first[i] {}
    forall i, j | 0 <= i < j < |all| ensures Before(all[i], all[j]) {
      if j < |first| {
        assert Before(first[i], first[j]);
      } else if i >= |first| {
        assert Before(routes[i - |first|], routes[j - |first|]);
      } else {
        assert all[j] == routes[j - |first|];
      }
    }
  }

  /** The entries of one node in front of those of the nodes behind it. */
  lemma OneMoreNode(s: Storage, nodes: seq<Node>, from: nat, own: seq<Recorded>, first: seq<seq<nat>>, rest: seq<Recorded>, routes: seq<seq<nat>>)
    requires from < |nodes| && Lists(s, nodes[from], own, first) && ListsFrom(s, nodes, from + 1, rest, routes)
    ensures ListsFrom(s, nodes, from, own + rest, Prefixed(from, first) + routes)
  {
    PrefixedOrdered(from, first, routes);
    hide Ordered;
    var all, entries := Prefixed(from, first) + routes, own + rest;
    forall i | 0 <= i < |all| ensures all[i] != [] && all[i][0] >= from && LeadsAmong(s, nodes, all[i], entries[i]) {
      if i < |first| {
        assert all[i][0] == from && all[i][1..] == first[i];
        assert Leads(s, nodes[from], first[i], own[i]);
      } else {
        assert all[i] == routes[i - |first|];
      }
    }
    forall route, x | route != [] && route[0] >= from && LeadsAmong(s, nodes, route, x) ensures route in all {
      if route[0] == from {
        assert Leads(s, nodes[from], route[1..], x);
        var i :| 0 <= i < |first| && first[i] == route[1..];
        assert all[i] == route;
      } else {
        var i :| 0 <= i < |routes| && routes[i] == route;
        assert all[|first| + i] == route;
      }
    }
  }

  /** A leaf, or the entries of everything inside. */
  lemma NodeLists(s: Storage, n: Node, recorded: seq<Recorded>, routes: seq<seq<nat>>)
    requires ToHistorianValue(n.value).None? && ListsFrom(s, Inside(s, n), 0, recorded, routes)
    ensures Lists(s, n, recorded, routes)
  {
    forall route, x | Leads(s, n, route, x) ensures route in routes {
      if route == [] {
        RecordsExactly(n.value, x.value);
      } else {
        assert LeadsAmong(s, Inside(s, n), route, x);
      }
    }
  }

  lemma LeafLists(s: Storage, n: Node)
    requires ToHistorianValue(n.value).Some?
    ensures Lists(s, n, [Recorded(n.path, ToHistorianValue(n.value).value)], [[]])
  {
    RecordsExactly(n.value, ToHistorianValue(n.value).value);
    forall route, x | Leads(s, n, route, x) ensures route in [[]] {
      assert Inside(s, n) == [];
      assert route != [] ==> !LeadsAmong(s, Inside(s, n), route, x);
    }
  }

  // ----- Flattening lists the leaves -----

  lemma {:induction false} FlattenLists(s: Storage, path: string, v: Value) returns (routes: seq<seq<nat>>)
    requires LinksAcyclic(s)
    ensures Lists(s, Node(path, v), FlattenValue(s, path, v, Everything()), routes)
    decreases Level(s, v), v, 0
  {
    hide Lists, ListsFrom;
    var n := Node(path, v);
    if ToHistorianValue(v).Some? {
      LeafLists(s, n);
      routes := [[]];
    } else {
      ChildrenWithin(s, v);
      match v
      case Struct(_, fields) =>
        routes := SlotsList(s, path, fields, 0, Level(s, v));
        assert fields[0..] == fields;
        NodeLists(s, n, FlattenValue(s, path, v, Everything()), routes);
      case Array(elements, _) =>
        routes := ElementsList(s, path, elements, 0, Level(s, v));
        assert elements[0..] == elements;
        NodeLists(s, n, FlattenValue(s, path, v, Everything()), routes);
      case Instance(id) =>
        if id in s.instances {
          InstanceDescends(s, id);
          var slots := s.instances[id].variables;
          routes := SlotsList(s, path, slots, 0, Level(s, v) - 1);
          assert slots[0..] == slots;
        } else {
          NoNodes(s, []);
          routes := [];
        }
        NodeLists(s, n, FlattenValue(s, path, v, Everything()), routes);
      case _ =>
        NoNodes(s, []);
        routes := [];
        NodeLists(s, n, [], routes);
    }
  }

  lemma NoNodes(s: Storage, nodes: seq<Node>)
    ensures ListsFrom(s, nodes, |nodes|, [], [])
  {
  }

  lemma {:induction false} SlotsList(s: Storage, path: string, slots: seq<Slot>, from: nat, level: nat) returns (routes: seq<seq<nat>>)
    requires LinksAcyclic(s) && from <= |slots| && SlotsWithin(s, slots, level)
    ensures ListsFrom(s, Fields(path, slots), from, FlattenSlots(s, path, slots[from..], Everything(), level), routes)
    decreases level, slots[from..], 1
  {
    hide Lists, ListsFrom;
    var nodes := Fields(path, slots);
    if from == |slots| {
      NoNodes(s, nodes);
      assert slots[from..] == [];
      routes := [];
    } else {
      var first := FlattenLists(s, path + "." + slots[from].name, slots[from].value);
      assert slots[from..][1..] == slots[from + 1..];
      var rest := SlotsList(s, path, slots, from + 1, level);
      OneMoreNode(s, nodes, from, FlattenValue(s, path + "." + slots[from].name, slots[from].value, Everything()), first,
                  FlattenSlots(s, path, slots[from + 1..], Everything(), level), rest);
      routes := Prefixed(from, first) + rest;
    }
  }

  lemma {:induction false} ElementsList(s: Storage, path: string, elements: seq<Value>, from: nat, level: nat) returns (routes: seq<seq<nat>>)
    requires LinksAcyclic(s) && from <= |elements| && ElementsWithin(s, elements, level)
    ensures ListsFrom(s, Inside(s, Node(path, Array(elements, []))), from, FlattenElements(s, path, elements[from..], from, Everything(), level), routes)
    decreases level, elements[from..], 1
  {
    hide Lists, ListsFrom;
    var nodes := Inside(s, Node(path, Array(elements, [])));
    if from == |elements| {
      NoNodes(s, nodes);
      assert elements[from..] == [];
      routes := [];
    } else {
      var inner := path + "[" + Decimal(from) + "]";
      var first := FlattenLists(s, inner, elements[from]);
      assert elements[from..][1..] == elements[from + 1..];
      var rest := ElementsList(s, path, elements, from + 1, level);
      OneMoreNode(s, nodes, from, FlattenValue(s, inner, elements[from], Everything()), first,
                  FlattenElements(s, path, elements[from + 1..], from + 1, Everything(), level), rest);
      routes := Prefixed(from, first) + rest;
    }
  }

  // ----- Whole snapshots -----

  /** The globals under their names, then the retained variables under theirs with a prefix. */
  function Roots(s: Storage): seq<Node>
  {
    Labelled("", s.globals) + Labelled("retain.", s.retain)
  }

  function Labelled(prefix: string, slots: seq<Slot>): seq<Node>
  {
    seq(|slots|, k requires 0 <= k < |slots| => Node(prefix + slots[k].name, slots[k].value))
  }

  lemma {:induction false} VariablesList(s: Storage, prefix: string, slots: seq<Slot>, nodes: seq<Node>, from: nat, k: nat, rest: seq<Recorded>, behind: seq<seq<nat>>)
    returns (routes: seq<seq<nat>>)
    requires LinksAcyclic(s) && k <= |slots| && from + |slots| <= |nodes|
    requires forall i :: 0 <= i < |slots| ==> nodes[from + i] == Node(prefix + slots[i].name, slots[i].value)
    requires ListsFrom(s, nodes, from + |slots|, rest, behind)
    ensures ListsFrom(s, nodes, from + k, FlattenVariables(s, prefix, slots[k..], Everything()) + rest, routes)
    decreases |slots| - k
  {
    hide Lists, ListsFrom;
    if k == |slots| {
      assert slots[k..] == [];
      assert FlattenVariables(s, prefix, slots[k..], Everything()) + rest == rest;
      routes := behind;
    } else {
      var own := FlattenValue(s, prefix + slots[k].name, slots[k].value, Everything());
      var first := FlattenLists(s, prefix + slots[k].name, slots[k].value);
      var further := VariablesList(s, prefix, slots, nodes, from, k + 1, rest, behind);
      assert slots[k..][1..] == slots[k + 1..];
      var later := FlattenVariables(s, prefix, slots[k + 1..], Everything()) + rest;
      OneMoreNode(s, nodes, from + k, own, first, later, further);
      assert own + later == FlattenVariables(s, prefix, slots[k..], Everything()) + rest;
      routes := Prefixed(from + k, first) + further;
    }
  }

  /** Main result: a full snapshot records every leaf of the storage once, in the order of the routes. */
  lemma SnapshotListsLeaves(s: Storage) returns (routes: seq<seq<nat>>)
    requires LinksAcyclic(s)
    ensures ListsFrom(s, Roots(s), 0, CollectValues(s, Everything()), routes)
  {
    hide Lists, ListsFrom;
    var nodes := Roots(s);
    NoNodes(s, nodes);
    var retained := VariablesList(s, "retain.", s.retain, nodes, |s.globals|, 0, [], []);
    assert s.retain[0..] == s.retain && s.globals[0..] == s.globals;
    var rest := FlattenVariables(s, "retain.", s.retain, Everything());
    assert rest + [] == rest;
    routes := VariablesList(s, "", s.globals, nodes, 0, 0, rest, retained);
  }
}
