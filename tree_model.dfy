/** The rows of the window's `QTreeWidget`, kept as an arena: a node's index
    in the arena is its identity, standing for the `id(item)` the window
    uses as a dictionary key. */
module TreeModel {

  /** Where a row hangs: directly in the tree widget, or under the row with
      the given index. */
  datatype Parent = TreeTop | Under(node: nat)

  /** One row: its column texts (name, value, and the third "default"
      column of the rebindings view), whether its value column is editable
      as text, and whether a colour editor widget sits in its value column. */
  datatype Node = Node(parent: Parent, name: string, value: string, reference: string,
                       editable: bool, colourEditor: bool)

  /** A row that stands for one setting of the document: plain editable
      text or a colour editor. Group, container and placeholder rows are not. */
  predicate IsSettingRow(n: Node) {
    n.editable || n.colourEditor
  }

  /** Number of rows that hang directly in the tree widget. */
  function TopLevelCount(nodes: seq<Node>): (n: nat)
    ensures n <= |nodes|
  {
    if nodes == [] then 0
    else TopLevelCount(nodes[..|nodes| - 1]) + (if nodes[|nodes| - 1].parent == TreeTop then 1 else 0)
  }

  lemma {:induction false} TopLevelCountAppend(a: seq<Node>, b: seq<Node>)
    ensures TopLevelCount(a + b) == TopLevelCount(a) + TopLevelCount(b)
    decreases |b|
  {
    if b == [] {
      assert a + b == a;
    } else {
      assert (a + b)[..|a + b| - 1] == a + b[..|b| - 1];
      TopLevelCountAppend(a, b[..|b| - 1]);
    }
  }
}
