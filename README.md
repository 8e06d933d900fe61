# Persistent cons list

A model of `cons_list`, an immutable, persistent singly-linked list over any
element type. A list is either empty or a shared node holding one element in
front of another list. No node is changed after it is built: `cons` wraps the
receiver in one new node, `init` and `append` rebuild the nodes they must
change and share the rest, and every accessor that can find nothing returns
`None`.

The Rust pair of types is kept as written. `ListBox<T> = ListBox(x, xs)` is a
node. `List<T> = List(node: Option<ListBox<T>>)` is a list handle. The
methods of each type become member functions of the matching datatype. The
reference-counted pointer between them becomes plain value containment.
Nodes are immutable, so two lists that share a node cannot be told apart from
two lists that hold equal copies of it. Each type has a ghost abstraction
`Elems()`, the sequence of elements head first. Every operation is specified
against it. `ElemsInjective` then turns equal elements into equal lists, which
is how the structural laws (identities, associativity, the `init`/`last` round
trip) are stated as equalities of lists.

Files:
- `Wrappers.dfy`: the `Option` type.
- `ConsList.dfy`: the two types, their operations, the debug rendering and the lemmas about them.
- `Demo.dfy`: the demonstration driver's list and the values it inspects.

## Model

| member | source | states |
|---|---|---|
| `ConsList.ListBox.Init` | src/main.rs:9-18 | the rebuilt chain holds every element of the node's chain except the last, in order |
| `ConsList.ListBox.Append` | src/main.rs:20-29 | the result holds the chain's elements followed by `other`'s, and stepping over the chain's length of heads reaches `other` itself (it is shared, not copied) |
| `ConsList.ListBox.Last` | src/main.rs:31-33 | the result is the final element of the chain |
| `ConsList.List.Default` | src/main.rs:44-48 | the default list is the empty list |
| `ConsList.List.Render` | src/main.rs:50-60 | the debug text is each element's text followed by " : ", in order, then `[]` |
| `ConsList.RenderShape` | src/main.rs:54-59 | the empty list renders as `[]`; a node renders as its head's text, " : ", then its tail's text |
| `ConsList.List.New` | src/main.rs:64-66 | the new list has no elements |
| `ConsList.List.Cons` | src/main.rs:68-71 | the result's elements are `x` followed by the receiver's, and `Uncons` of it gives back exactly `x` and the receiver |
| `ConsList.List.Uncons` | src/main.rs:73-75 | `None` exactly when the list is empty; otherwise the head followed by the tail's elements are the list's elements |
| `ConsList.List.First` | src/main.rs:77-79 | `None` exactly when the list is empty; otherwise the first element |
| `ConsList.List.Rest` | src/main.rs:81-83 | `None` exactly when the list is empty; otherwise a list of every element after the first |
| `ConsList.List.Init` | src/main.rs:85-90 | `None` exactly when the list is empty; otherwise a list of every element but the last, in order |
| `ConsList.List.Last` | src/main.rs:92-94 | `None` exactly when the list is empty; otherwise the final element |
| `ConsList.List.Append` | src/main.rs:96-101 | the result holds the receiver's elements followed by `other`'s; an empty receiver yields `other` itself; `other` is the tail reached after the receiver's length of heads |
| `ConsList.ElemsInjective` | src/main.rs:3-6 | two lists with the same elements are the same list, so the element sequence determines the list |
| `ConsList.NewIsEmpty` | src/main.rs:64-94 | on the new list `uncons`, `first`, `rest`, `init` and `last` all return `None`, and the default list equals it |
| `ConsList.ConsUncons` | src/main.rs:68-83 | `uncons` of `l.cons(x)` is `(x, l)`; `first` gives `x` and `rest` gives `l` |
| `ConsList.UnconsCons` | src/main.rs:68-75 | consing the head that `uncons` returns onto the tail it returns rebuilds the list |
| `ConsList.Singleton` | src/main.rs:9-33 | a one-element list's last element is that element, and its `init` is the empty list |
| `ConsList.InitAppendLast` | src/main.rs:9-33 | for a non-empty list, `init` appended with the one-element list of `last` is the list again |
| `ConsList.AppendIdentity` | src/main.rs:96-101 | the empty list is a left and a right identity of `append` |
| `ConsList.AppendAssociative` | src/main.rs:20-29 | `(a ++ b) ++ c` equals `a ++ (b ++ c)` |
| `ConsList.AppendLength` | src/main.rs:96-101 | the length of an appended list is the sum of the two lengths |
| `Demo.DemoList` | src/main.rs:105 | `new().cons(1).cons(2).cons(3)` holds 3, 2, 1 head first |
| `Demo.DemoScenario` | src/main.rs:106-110 | the driver sees first 3, rest (2, 1), init (3, 2), last 1 and self-append (3, 2, 1, 3, 2, 1) |
| `Demo.DemoRendering` | src/main.rs:105 | the demonstration list renders as `3 : 2 : 1 : []` |
| `Demo.DemoSelfAppend` | src/main.rs:110 | appending the list to itself gives the nodes 3, 2, 1 rebuilt in front of the original list |
| `Demo.DemoAppendRendering` | src/main.rs:110 | the self-appended list renders as `3 : 2 : 1 : 3 : 2 : 1 : []` |

## Left out

- `Clone for List` (src/main.rs:38-42) copies a handle; on immutable values it is the identity, so it has no member of its own. `T: Clone` on element values is likewise the identity.
- Reference counting, memory reclamation and drop order of `Rc` nodes: they concern memory, not what any operation returns.
- Borrowed results (`&T`, `&List<T>`) are returned as values.
- `ConsList.List.Render`: `std::fmt::Formatter` and the `Debug` text of the element type are library code; rendering takes the element text as a `show` parameter and always succeeds (a formatter write error is not modelled). The demonstration uses decimal text for integers.
- The `dbg!` output of `main` (src/main.rs:106-110) goes to standard error and wraps values in `Some(...)` and source locations; only the values it prints are kept, in `Demo.DemoScenario` and the rendering lemmas.
- Call-stack depth of the recursive `init`, `append`, `last` and `fmt` on long lists is not behaviour the code states.
