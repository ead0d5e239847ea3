/**
 * The part of the Yummo `Utils.dom` facade that the image grid uses,
 * over a document abstracted as a map from element id to element state.
 * `getById(id)` is the lookup `elements[id]`; the operations below need
 * the id to resolve, as the source calls them on the looked-up element
 * without a null check.
 */
module Dom {

  const DISPLAY_NONE := "none"
  const DISPLAY_BLOCK := "block"

  /**
   * The state of one element: its inline `style.display`, its class list
   * (as a set of tokens) and the ids of the `<img>` elements beneath it,
   * in document order (what `getImgElements` returns).
   */
  datatype Element = Element(display: string, classes: set<string>, imgIds: seq<string>)

  type Elements = map<string, Element>

  /** `hide`: the element's display becomes "none"; nothing else changes. */
  function Hidden(els: Elements, id: string): (r: Elements)
    requires id in els
    ensures r.Keys == els.Keys
    ensures r[id].display == DISPLAY_NONE
    ensures r[id].classes == els[id].classes && r[id].imgIds == els[id].imgIds
    ensures forall k :: k in els && k != id ==> r[k] == els[k]
  {
    els[id := els[id].(display := DISPLAY_NONE)]
  }

  /** `show`: the element's display becomes "block"; nothing else changes. */
  function Shown(els: Elements, id: string): (r: Elements)
    requires id in els
    ensures r.Keys == els.Keys
    ensures r[id].display == DISPLAY_BLOCK
    ensures r[id].classes == els[id].classes && r[id].imgIds == els[id].imgIds
    ensures forall k :: k in els && k != id ==> r[k] == els[k]
  {
    els[id := els[id].(display := DISPLAY_BLOCK)]
  }

  /**
   * `toggleClass`: the token is added when absent and removed when
   * present; every other token, the display and every other element stay.
   */
  function Toggled(els: Elements, id: string, token: string): (r: Elements)
    requires id in els
    ensures r.Keys == els.Keys
    ensures token in r[id].classes <==> token !in els[id].classes
    ensures forall c :: c != token ==> (c in r[id].classes <==> c in els[id].classes)
    ensures r[id].display == els[id].display && r[id].imgIds == els[id].imgIds
    ensures forall k :: k in els && k != id ==> r[k] == els[k]
  {
    var e := els[id];
    els[id := e.(classes := if token in e.classes then e.classes - {token} else e.classes + {token})]
  }

  lemma HideIdempotent(els: Elements, id: string)
    requires id in els
    ensures Hidden(Hidden(els, id), id) == Hidden(els, id)
  {
  }

  lemma ShowIdempotent(els: Elements, id: string)
    requires id in els
    ensures Shown(Shown(els, id), id) == Shown(els, id)
  {
  }

  /** Toggling the same token twice restores the document. */
  lemma ToggleTwice(els: Elements, id: string, token: string)
    requires id in els
    ensures Toggled(Toggled(els, id, token), id, token) == els
  {
    var r := Toggled(Toggled(els, id, token), id, token);
    assert r[id].classes == els[id].classes;
    assert r[id] == els[id];
  }

  /** The page: the state of every element that has an id. */
  class Document {
    var elements: Elements

    constructor (elements: Elements)
      ensures this.elements == elements
    {
      this.elements := elements;
    }

    method Hide(id: string)
      requires id in elements
      modifies this
      ensures elements == Hidden(old(elements), id)
    {
      elements := elements[id := elements[id].(display := DISPLAY_NONE)];
    }

    method Show(id: string)
      requires id in elements
      modifies this
      ensures elements == Shown(old(elements), id)
    {
      elements := elements[id := elements[id].(display := DISPLAY_BLOCK)];
    }

    method ToggleClass(id: string, token: string)
      requires id in elements
      modifies this
      ensures elements == Toggled(old(elements), id, token)
    {
      var e := elements[id];
      if token in e.classes {
        elements := elements[id := e.(classes := e.classes - {token})];
      } else {
        elements := elements[id := e.(classes := e.classes + {token})];
      }
    }
  }
}
