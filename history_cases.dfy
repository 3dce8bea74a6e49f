/** The reducer's documented cases on concrete stores, with string values. */
module HistoryCases {
  import opened History

  lemma UndoOrRedoOnEmptyStoreThrows()
    ensures var empty: State<string> := map[];
      Reduce(empty, UndoAction("test")).Err? && Reduce(empty, RedoAction("test")).Err?
  {
  }

  lemma SetOnEmptyStore()
    ensures var r := Reduce(map[], SetAction("test", "Hello World"));
      r.Ok? && "test" in r.value &&
      |r.value["test"].past| == 1 && r.value["test"].present == Val("Hello World") &&
      r.value["test"].future == []
  {
    FirstSetCreatesSlide(map[], "test", "Hello World");
  }

  /** A set on a new slide leaves the other slide of the store alone. */
  lemma SetBesideAnotherSlide()
    ensures var s := map["default" := TimeState([], Val("Moin"), [])];
      var r := Reduce(s, SetAction("test", "Hello World"));
      r.Ok? && r.value.Keys == {"default", "test"} &&
      r.value["default"] == s["default"] &&
      |r.value["test"].past| == 1 && r.value["test"].present == Val("Hello World") &&
      r.value["test"].future == []
  {
    var s := map["default" := TimeState([], Val("Moin"), [])];
    FirstSetCreatesSlide(s, "test", "Hello World");
  }

  lemma SetOnExistingSlidePushesOldPresent()
    ensures var s := map["test" := TimeState([], Val("Moin"), [])];
      var r := Reduce(s, SetAction("test", "Hello World"));
      r.Ok? && r.value["test"].past == [Val("Moin")] &&
      r.value["test"].present == Val("Hello World") && r.value["test"].future == []
  {
    var s := map["test" := TimeState([], Val("Moin"), [])];
    SetOnExistingSlide(s, "test", "Hello World");
  }

  /** set v1, set v2, undo, set v3: v2 can no longer be redone. */
  lemma SetAfterUndoDiscardsRedo(s0: State<string>, id: string, v1: string, v2: string, v3: string)
    requires v1 != v2 && v3 != v1
    ensures var s1 := Reduce(s0, SetAction(id, v1)).value;
      var s2 := Reduce(s1, SetAction(id, v2)).value;
      var s3 := Reduce(s2, UndoAction(id));
      s3.Ok? && s3.value[id].present == Val(v1) && s3.value[id].future == [Val(v2)] &&
      var s4 := Reduce(s3.value, SetAction(id, v3)).value;
      s4[id].present == Val(v3) && s4[id].future == []
  {
    var s1 := Reduce(s0, SetAction(id, v1)).value;
    assert id in s1 && s1[id].present == Val(v1);
    SetThenUndo(s1, id, v2);
  }
}
