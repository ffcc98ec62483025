/**
 * The state of the `ToDo` component: the list of to-dos and the text of the
 * input field, with the handlers that replace them.
 */
module ToDoList {
  import opened JsStrings

  /**
   * `todos.filter((_, i) => i !== index)`: the list without the element at
   * position `index`, or the whole list when no position equals `index`.
   */
  function WithoutIndex(todos: seq<JsString>, index: int): (r: seq<JsString>)
    ensures 0 <= index < |todos| ==> r == todos[..index] + todos[index + 1..]
    ensures !(0 <= index < |todos|) ==> r == todos
  {
    if todos == [] then []
    else (if index == 0 then [] else [todos[0]]) + WithoutIndex(todos[1..], index - 1)
  }

  /** Removing the element just appended gives back the list it was appended to. */
  lemma AppendThenRemoveLast(todos: seq<JsString>, v: JsString)
    ensures WithoutIndex(todos + [v], |todos|) == todos
  {
    assert (todos + [v])[..|todos|] == todos;
  }

  class ToDo {
    var todos: seq<JsString>
    var value: JsString

    /** Both fields start empty. */
    constructor ()
      ensures todos == [] && value == []
    {
      todos := [];
      value := [];
    }

    /** The input's `onChange`: the field now holds `text`. */
    method EditValue(text: JsString)
      modifies this
      ensures value == text
      ensures todos == old(todos)
    {
      value := text;
    }

    /**
     * `addTodo`: appends the field's text, even when it is empty, and clears
     * the field; every earlier to-do keeps its place.
     */
    method AddTodo()
      modifies this
      ensures todos == old(todos) + [old(value)]
      ensures |todos| == |old(todos)| + 1 && todos[..|old(todos)|] == old(todos)
      ensures value == []
    {
      todos := todos + [value];
      value := [];
    }

    /**
     * `deleteToDo`: removes the to-do at `index` and keeps the others in
     * order; an index outside the list changes nothing.
     */
    method DeleteToDo(index: int)
      modifies this
      ensures todos == WithoutIndex(old(todos), index)
      ensures 0 <= index < |old(todos)| ==>
        |todos| == |old(todos)| - 1 && todos == old(todos)[..index] + old(todos)[index + 1..]
      ensures !(0 <= index < |old(todos)|) ==> todos == old(todos)
      ensures value == old(value)
    {
      todos := WithoutIndex(todos, index);
    }
  }

  /** Adding a to-do and then deleting it by its position restores the list and empties the field. */
  method AddThenDelete(t: ToDo)
    modifies t
    ensures t.todos == old(t.todos) && t.value == []
  {
    var n := |t.todos|;
    t.AddTodo();
    t.DeleteToDo(n);
    AppendThenRemoveLast(old(t.todos), old(t.value));
  }
}
