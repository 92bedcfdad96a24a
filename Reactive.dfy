/** The `react` class with `renderreact`, `walkDataProps` and `defineReactive`:
    a template snapshot, two linked copies of every data value (one behind an
    accessor on the instance, one behind an accessor on `$data`), and a full
    re-render of the element's markup on every real change. */
module Reactive {

  import opened Mustache

  class React {
    /** `originalTemplate.innerHTML`: the markup cloned once at construction. */
    const template: string
    /** Keys whose accessor pair is installed (the keys of the initial data). */
    var keys: set<string>
    /** Values read through the instance's own properties (`this[key]`); for
        an installed key, the cell of the instance-side accessor. */
    var instance: map<string, Value>
    /** Values read through `this.$data[key]`; for an installed key, the cell
        of the data-side accessor. */
    var data: map<string, Value>
    /** `this.$el.innerHTML`. */
    var rendered: string
    /** Number of calls of the render callback so far. */
    var renders: nat

    /** Both accessors exist for every installed key and their cells agree. */
    ghost predicate Valid()
      reads this
    {
      keys <= data.Keys && keys <= instance.Keys &&
      forall k :: k in keys ==> instance[k] == data[k]
    }

    /** The element shows the template rendered from the current data. */
    ghost predicate Current()
      reads this
    {
      rendered == Render(template, data)
    }

    /** `new react({ el, data })`: `markup` is the element's markup when the
        binding is made. Installs the accessors for every initial key, then
        renders once. A data key named `$el` or `$data` would shadow the
        binding's own element or data object, and construction throws. */
    constructor (markup: string, initial: map<string, Value>)
      requires "$el" !in initial && "$data" !in initial
      ensures template == markup && keys == initial.Keys
      ensures data == initial && instance == initial
      ensures renders == 1 && Current() && Valid()
    {
      template := markup;
      keys := {};
      instance := map[];
      data := initial;
      rendered := markup;
      renders := 0;
      new;
      WalkDataProps();
      assert instance == initial;
      Rerender();
    }

    /** The render callback made by `renderreact`: replaces the markup with
        the template rendered from the current data. */
    method Rerender()
      modifies this
      ensures rendered == Render(template, data) && renders == old(renders) + 1
      ensures keys == old(keys) && instance == old(instance) && data == old(data)
    {
      rendered := Render(template, data);
      renders := renders + 1;
    }

    /** `defineReactive(this, key, cb)`: without a callback it installs the
        instance-side accessor, whose cell starts as `$data[key]`; with one it
        installs the data-side accessor, whose cell also starts as
        `$data[key]`, so `data` keeps its value. */
    method DefineReactive(key: string, withRender: bool)
      requires key in data
      modifies this
      ensures data == old(data) && rendered == old(rendered) && renders == old(renders)
      ensures withRender ==> keys == old(keys) + {key} && instance == old(instance)
      ensures !withRender ==> keys == old(keys) && instance == old(instance)[key := data[key]]
    {
      if withRender {
        keys := keys + {key};
      } else {
        instance := instance[key := data[key]];
      }
    }

    /** `walkDataProps`: both accessors for every key of `$data`, with no
        render. The instance cells of those keys start equal to `$data`. */
    method WalkDataProps()
      modifies this
      ensures keys == old(keys) + data.Keys
      ensures instance.Keys == old(instance).Keys + data.Keys
      ensures forall k :: k in data ==> instance[k] == data[k]
      ensures forall k :: k in old(instance) && k !in data ==> instance[k] == old(instance)[k]
      ensures data == old(data) && rendered == old(rendered) && renders == old(renders)
    {
      var todo := data.Keys;
      while todo != {}
        invariant data == old(data) && todo <= data.Keys
        invariant keys == old(keys) + (data.Keys - todo)
        invariant instance.Keys == old(instance).Keys + (data.Keys - todo)
        invariant forall k :: k in data && k !in todo ==> instance[k] == data[k]
        invariant forall k :: k in old(instance) && (k !in data || k in todo) ==> instance[k] == old(instance)[k]
        invariant rendered == old(rendered) && renders == old(renders)
        decreases todo
      {
        var key :| key in todo;
        DefineReactive(key, false);
        DefineReactive(key, true);
        todo := todo - {key};
      }
    }

    /** How many of the two cells of `key` still differ from `v`: each step of
        the mutual write chain brings one of them to `v`. */
    function Pending(key: string, v: Value): nat
      reads this
    {
      (if key in data && data[key] != v then 1 else 0) +
      (if key in instance && instance[key] != v then 1 else 0)
    }

    /** `this.$data[key] = v`. On an installed key the data-side setter returns
        at once when its cell is `===` v; otherwise it stores v, writes v to
        the instance (whose setter writes back, and that write is then a
        no-op), and renders. Any other key is a plain property: stored, no render. */
    method SetData(key: string, v: Value)
      requires keys <= data.Keys && keys <= instance.Keys
      modifies this
      ensures keys == old(keys)
      ensures key !in keys ==>
        data == old(data)[key := v] && instance == old(instance) &&
        rendered == old(rendered) && renders == old(renders)
      ensures key in keys && old(data[key]) == v ==>
        data == old(data) && instance == old(instance) &&
        rendered == old(rendered) && renders == old(renders)
      ensures key in keys && old(data[key]) != v ==>
        data == old(data)[key := v] && instance == old(instance)[key := v] &&
        rendered == Render(template, data) && renders == old(renders) + 1
      ensures old(Valid()) ==> Valid()
      ensures key in keys && old(Current()) ==> Current()
      decreases Pending(key, v)
    {
      if key !in keys {
        data := data[key := v];
        return;
      }
      if data[key] == v {
        return;
      }
      data := data[key := v];
      SetInstance(key, v);
      Rerender();
    }

    /** `this[key] = v`. On an installed key the instance-side setter returns
        at once when its cell is `===` v; otherwise it stores v and writes v
        to `$data`, whose setter completes the chain. Any other key is a plain
        property of the instance: stored, nothing else happens. */
    method SetInstance(key: string, v: Value)
      requires keys <= data.Keys && keys <= instance.Keys
      modifies this
      ensures keys == old(keys)
      ensures key !in keys ==>
        instance == old(instance)[key := v] && data == old(data) &&
        rendered == old(rendered) && renders == old(renders)
      ensures key in keys && old(instance[key]) == v ==>
        data == old(data) && instance == old(instance) &&
        rendered == old(rendered) && renders == old(renders)
      ensures key in keys && old(instance[key]) != v ==>
        instance == old(instance)[key := v] && data == old(data)[key := v] &&
        renders == old(renders) + (if old(data[key]) != v then 1 else 0) &&
        rendered == (if old(data[key]) != v then Render(template, data) else old(rendered))
      ensures old(Valid()) ==> Valid()
      ensures old(Valid()) && key in keys ==>
        renders == old(renders) + (if old(data[key]) == v then 0 else 1)
      ensures key in keys && old(Current()) ==> Current()
      decreases Pending(key, v)
    {
      if key !in keys {
        instance := instance[key := v];
        return;
      }
      if instance[key] == v {
        return;
      }
      instance := instance[key := v];
      SetData(key, v);
    }
  }

  /** A client of the binding: bind `{key: a}` to `markup`, write `b` through
      `$data`, then write `b` again through the instance. The first write
      shows the new value after one render; the second is a no-op. */
  method BindThenWrite(markup: string, key: string, a: Value, b: Value)
    returns (first: string, second: string, third: string, count: nat)
    requires a != b && key != "$el" && key != "$data"
    ensures first == Render(markup, map[key := a])
    ensures second == Render(markup, map[key := b]) && third == second
    ensures count == 2
  {
    var r := new React(markup, map[key := a]);
    first := r.rendered;
    r.SetData(key, b);
    assert r.data == map[key := b];
    second := r.rendered;
    r.SetInstance(key, b);
    third := r.rendered;
    count := r.renders;
  }
}
