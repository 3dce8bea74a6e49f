/** An editing session driven only through the editor's contracts. */
module PresentationSession {
  import opened History
  import opened Presentation

  /** Add a text node, drag it by (50, 0), then undo the drag. */
  method CreateMoveUndo()
  {
    var p := new Presentation("s1");
    p.SlideChanged("s1");
    assert CanUndo(p.history.state, "s1") == false;

    p.CreateText();
    assert DecimalString(2) == "2";
    var created := [InitialNode(), TextNode("2")];
    assert Appended(map["s1" := TimeState([], Val([InitialNode()]), [])], "s1", TextNode("2")) == created;
    SetOnExistingSlide(map["s1" := TimeState([], Val([InitialNode()]), [])], "s1", created);
    assert p.history.state["s1"] == TimeState([Val([InitialNode()])], Val(created), []);

    var e := DragEndEvent("2", Some(DragData("s1")), 50.0, 0.0);
    p.OnDragEnd(e);
    var moved := Dragged(created, "2", 50.0, 0.0);
    assert moved[1].position == Position(50.0, 0.0) && moved[0] == InitialNode();
    assert moved != created;
    assert |p.history.state["s1"].past| == 2;

    p.OnUndoClick();
    assert p.history.state["s1"].present == Val(created);
    assert |p.history.state["s1"].past| == 1;
  }
}
