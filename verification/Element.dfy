/**
 * The attribute list of an element node (src/ixml/element.c:299-380).
 */
module Element {
  import opened CStrings
  import opened Sequences
  import opened Dom

  /** The attribute list of element, read forwards, is row. */
  ghost predicate Forward(element: Node, row: seq<Node>)
    reads element`firstAttr, (set x | x in row)`nextSibling
  {
    element.firstAttr == NodeAt(row, 0)
    && forall i {:trigger row[i].nextSibling} | 0 <= i < |row| :: row[i].nextSibling == NodeAt(row, i + 1)
  }

  /** The same, read backwards. */
  ghost predicate Backward(row: seq<Node>)
    reads (set x | x in row)`prevSibling
  {
    forall i {:trigger row[i].prevSibling} | 0 <= i < |row| :: row[i].prevSibling == NodeAt(row, i - 1)
  }

  /** The place of the first attribute with this name; the length of the list if there is none. */
  ghost function Place(row: seq<Node>, name: Bytes): (k: nat)
    reads (set x | x in row)`nodeName
    ensures k <= |row| && forall i | 0 <= i < k :: row[i].nodeName != name
    ensures k < |row| ==> row[k].nodeName == name
  {
    if row == [] then 0 else if row[0].nodeName == name then 0 else 1 + Place(row[1..], name)
  }

  /** The search for the attribute with the name. */
  method FindAttribute(element: Node, name: Bytes, ghost row: seq<Node>) returns (attrNode: Node?)
    requires Forward(element, row)
    ensures attrNode == NodeAt(row, Place(row, name))
  {
    attrNode := element.firstAttr;
    ghost var k := 0;
    while attrNode != null
      invariant 0 <= k <= |row| && attrNode == NodeAt(row, k)
      invariant k <= Place(row, name)
      decreases |row| - k
    {
      assert attrNode == row[k];
      if attrNode.nodeName == name {
        return;
      }
      attrNode := attrNode.nextSibling;
      k := k + 1;
    }
  }

  /**
   * ixmlElement_setAttributeNode. A new attribute goes behind the others. An attribute of the same name
   * is taken out, but the new node gets no links of its own: the attributes behind it are lost, and it does
   * not know the one in front of it. The list is right again exactly when there is one attribute.
   */
  method SetAttributeNode(element: Node?, newAttr: Node?, ghost row: seq<Node>) returns (code: Code, rtAttr: Node?, ghost now: seq<Node>)
    requires element != null ==> Forward(element, row) && Backward(row) && NoDup(row) && element !in row
    requires newAttr != null ==> newAttr !in row && newAttr != element && newAttr.prevSibling == null && newAttr.nextSibling == null
    modifies (if element == null then {} else {element})`firstAttr
    modifies (if newAttr == null then {} else {newAttr})`ownerElement
    modifies (if newAttr == null then {} else {newAttr})`prevSibling, (if newAttr == null then {} else {newAttr})`nextSibling
    modifies (set x | x in row)`nextSibling, (set x | x in row)`prevSibling
    ensures code == if element == null || newAttr == null then InvalidParameter
                    else if newAttr.ownerDocument != element.ownerDocument then WrongDocumentErr
                    else if old(newAttr.ownerElement) != null then InUseAttributeErr
                    else Success
    ensures code == Success ==>
              && newAttr.ownerElement == element
              && Forward(element, now)
              && var k := Place(row, newAttr.nodeName);
                 if k == |row| then now == row + [newAttr] && Backward(now) && rtAttr == null
                 else
                   && now == row[..k] + [newAttr] && rtAttr == row[k]
                   && (Forward(element, row[k := newAttr]) <==> k == |row| - 1)
                   && (Forward(element, row[k := newAttr]) && Backward(row[k := newAttr]) <==> |row| == 1)
  {
    rtAttr, now := null, row;
    if element == null || newAttr == null {
      return InvalidParameter, null, row;
    }
    if newAttr.ownerDocument != element.ownerDocument {
      return WrongDocumentErr, null, row;
    }
    if newAttr.ownerElement != null {
      return InUseAttributeErr, null, row;
    }
    code := Success;
    newAttr.ownerElement := element;
    var attrNode := FindAttribute(element, newAttr.nodeName, row);
    if attrNode != null {
      rtAttr := attrNode;
      now := Replace(element, newAttr, attrNode, row, Place(row, newAttr.nodeName));
    } else {
      AppendAttribute(element, newAttr, row);
      now := row + [newAttr];
    }
  }

  /** The branch for a name that is taken. */
  method Replace(element: Node, node: Node, attrNode: Node, ghost row: seq<Node>, ghost k: nat) returns (ghost now: seq<Node>)
    requires Forward(element, row) && Backward(row) && NoDup(row) && k < |row| && attrNode == row[k]
    requires node !in row && node.nextSibling == null
    modifies element`firstAttr, (set x | x in row)`nextSibling, (set x | x in row)`prevSibling
    ensures now == row[..k] + [node] && Forward(element, now)
    ensures Forward(element, row[k := node]) <==> k == |row| - 1
    ensures node.prevSibling == null ==> (Forward(element, row[k := node]) && Backward(row[k := node]) <==> |row| == 1)
  {
    assert row[k].nextSibling == NodeAt(row, k + 1);
    var preSib, nextSib := attrNode.prevSibling, attrNode.nextSibling;
    assert k > 0 ==> row[k - 1].nextSibling == row[k];
    assert row[0].prevSibling == null;
    if preSib != null {
      preSib.nextSibling := node;
    }
    if nextSib != null {
      nextSib.prevSibling := node;
    }
    if element.firstAttr == attrNode {
      element.firstAttr := node;
    }
    now := row[..k] + [node];
    ghost var whole := row[k := node];
    assert now[k] == node && whole[k] == node;
    if k == |row| - 1 {
      assert whole == now;
      assert k > 0 && node.prevSibling == null ==> whole[k].prevSibling != NodeAt(whole, k - 1);
    } else {
      assert whole[k].nextSibling != NodeAt(whole, k + 1);
    }
  }

  /** The branch for a new name. */
  method AppendAttribute(element: Node, node: Node, ghost row: seq<Node>)
    requires Forward(element, row) && Backward(row) && NoDup(row) && element !in row
    requires node !in row && node != element && node.prevSibling == null && node.nextSibling == null
    modifies element`firstAttr, node`prevSibling, node`nextSibling, (set x | x in row)`nextSibling
    ensures Forward(element, row + [node]) && Backward(row + [node])
  {
    if element.firstAttr != null {
      var prevAttr: Node := element.firstAttr;
      var nextAttr := prevAttr.nextSibling;
      ghost var k := 0;
      while nextAttr != null
        invariant 0 <= k < |row| && prevAttr == row[k] && nextAttr == NodeAt(row, k + 1)
        decreases |row| - k
      {
        prevAttr := nextAttr;
        nextAttr := prevAttr.nextSibling;
        k := k + 1;
      }
      prevAttr.nextSibling := node;
      node.prevSibling := prevAttr;
    } else {
      element.firstAttr := node;
      node.prevSibling := null;
      node.nextSibling := null;
    }
  }
}
