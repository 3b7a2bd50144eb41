# Menu arrangement: a Dafny model

Plugin.MenuArrangement lets the user of a host application reorder the host's main menu
and hide some of its items. The model covers its two parts.

- **Persisting and replaying the layout.**
  - The order serialiser writes a pre-order walk of the main menu as `level:identifier;`
    tokens.
  - The order restorer parses those tokens back and moves each named item into place,
    container by container. It finds items anywhere in the tree.
  - The visibility restorer hides every tool strip item whose identifier is in the saved
    hidden set.
- **The editor panel.** It shows the menu as a tree view with one check box per node. Its
  handlers edit both trees together, and every edit saves the new order:
  - move up and move down;
  - indent and outdent;
  - drag and drop;
  - check or uncheck a node;
  - reset.

## How the model is built

The live menu is an arena (`Menus.Arena`):
- every item has an id;
- the main menu is one id;
- every container has a sequence of child ids;
- every item has a visibility flag.

`Menus.LiveMenu` is the host's mutable menu. It is a class whose methods are the
collection operations the source calls: `RemoveAt`, `Insert`, `Add` and assigning
`Visible`.

The tree view is a value (`Arrangement.View`):
- each node shows one item;
- each node has a list of child nodes, a parent and a check box;
- there is a top-level list.

`Arrangement.Mirror` is the invariant the panel keeps: every node list shows its
container's collection, item by item.

Module by module:
- `OrderCodec` (codec.dfy): the serialiser and the token reader, plus the identifier
  rules, `Int32.Parse` and `String.Split`.
- `OrderRestorer` (restorer.dfy): the restorer.
  - A class with the restorer's methods.
  - The functions `Scan`, `Admit`, `Reconcile`, `Place` and `Restore`, which are the
    loops of `ApplyMenuOrderFromEntries` written as recursion.
  - Each method is proved equal to its function.
- `RestoreFacts` and `SelfOrder` (restore_facts.dfy, self_order.dfy): what a restore
  promises.
  - It never loses or duplicates an item.
  - Only items named by the saved order move.
  - Malformed entries have no effect.
  - Replaying a menu's own saved order moves nothing.
- `Visibility` (visibility.dfy): the visibility restorer, with the same split into
  methods and the functions they are proved against.
- `Arrangement` (arrangement.dfy): the editor's `MoveNode` on both trees. It keeps the
  mirror and keeps the view a forest: every parent chain ends.
- `Editing` (editing.dfy): the commands as functions of the arrangement, and what each
  one does to the node's position.
- `TreeBuild` (tree_build.dfy): how `LoadMenuItems` and `CreateTreeNode` fill the tree
  view. The view they build mirrors the menu and is a forest.
- `Panel` (panel.dfy): the panel class. Its handlers are methods proved against the
  `Editing` functions. It also holds the collection helpers and `Settings`.

Where the source would raise an exception, the model stops there and returns a `faulted`
flag with the tree as it stands at that point. The two such places are `Int32.Parse` on
a malformed level and dereferencing the result of `FindItemLocation` when it fails.

Every downward walk carries a set `free` of ids it may still enter. The source has no
such guard. On a menu that is a tree the guard never stops a descent.

## Model

| member | source | states |
|---|---|---|
| Menus.RemoveAt | Plugin.MenuArrangement/Logic/CustomMenuOrderStorage.cs:203 | removing index `k` keeps the elements before `k` and shifts those after it down by one |
| Menus.InsertOrAdd | Plugin.MenuArrangement/Logic/CustomMenuOrderStorage.cs:206-209 | inserts `x` at `k` when `0 <= k <= Count` (the rest shifted up); otherwise appends it |
| Menus.FirstIndex | Plugin.MenuArrangement/Logic/CustomMenuOrderStorage.cs:219-227 | none exactly when `x` is absent; otherwise an index holding `x` with no earlier `x` |
| Menus.FirstIndexFrom | Plugin.MenuArrangement/Logic/CustomMenuOrderStorage.cs:219-227 | the same scan resumed at `i` when no `x` stands before `i` |
| Menus.Relocate | Plugin.MenuArrangement/Logic/CustomMenuOrderStorage.cs:200-210 | remove-then-insert keeps the arena valid, the items and the visibility flags |
| Menus.Walk | Plugin.MenuArrangement/Logic/CustomMenuOrderStorage.cs:49-65 | every visit of the pre-order walk names an existing item and container |
| Menus.PreOrder | Plugin.MenuArrangement/Logic/CustomMenuOrderStorage.cs:44 | the walk from the main menu at level 0 is empty exactly when the main menu is, and otherwise starts with its first item at level 0 |
| Menus.Locate | Plugin.MenuArrangement/Logic/CustomMenuOrderStorage.cs:216-240 | a found location holds the item searched for |
| Menus.LocateBelow | Plugin.MenuArrangement/Logic/CustomMenuOrderStorage.cs:229-237 | a location found in the drop-down children holds the item searched for |
| Menus.RelocateConserves | Plugin.MenuArrangement/Logic/CustomMenuOrderStorage.cs:200-210 | the multiset of all menu entries is unchanged by a move |
| Menus.RelocateKeepsOthersInOrder | Plugin.MenuArrangement/Logic/CustomMenuOrderStorage.cs:200-210 | with the moved items taken out, every collection is exactly as before |
| Menus.WalkSlots | Plugin.MenuArrangement/Logic/CustomMenuOrderStorage.cs:49-65 | each visit names the item held in its slot, at a depth no smaller than the start |
| Menus.WalkCovers | Plugin.MenuArrangement/Logic/CustomMenuOrderStorage.cs:51 | the walk meets every child of the container, in its own slot, at the container's depth |
| Menus.LocateFindsVisitedSlot | Plugin.MenuArrangement/Logic/CustomMenuOrderStorage.cs:216-240 | what `FindItemLocation` answers is a slot where the walk meets the item |
| Menus.LocateFindsVisited | Plugin.MenuArrangement/Logic/CustomMenuOrderStorage.cs:216-240 | `FindItemLocation` succeeds on every item the walk meets |
| Menus.WalkDepthBound | Plugin.MenuArrangement/Logic/CustomMenuOrderStorage.cs:62-63 | depths grow by one per descent, so no visit is deeper than the start depth plus the number of ids still enterable |
| Menus.LiveMenu.RemoveItemAt | Plugin.MenuArrangement/Logic/CustomMenuOrderStorage.cs:203 | `Items.RemoveAt(k)` changes only that collection, as `RemoveAt` |
| Menus.LiveMenu.InsertItem | Plugin.MenuArrangement/Logic/CustomMenuOrderStorage.cs:207 | `Items.Insert(k, x)` changes only that collection |
| Menus.LiveMenu.AddItem | Plugin.MenuArrangement/Logic/CustomMenuOrderStorage.cs:209 | `Items.Add(x)` appends to that collection only |
| Menus.LiveMenu.SetVisible | Plugin.MenuArrangement/Logic/CustomMenuOrderStorage.cs:281 | assigning `Visible` changes that item's flag and nothing else |
| OrderCodec.Identifier | Plugin.MenuArrangement/Logic/CustomMenuOrderStorage.cs:54-56 | the codec identifier is never empty |
| OrderCodec.IdentifierRulesAgree | Plugin.MenuArrangement/PanelMenuArrangement.cs:52-57 | the editor's identifier and the codec's agree, except that the codec names an item with neither name nor text `_separator_` |
| OrderCodec.EditorIdentifier | Plugin.MenuArrangement/PanelMenuArrangement.cs:52-57 | the editor's identifier is the name or the text, and is empty exactly when both are |
| OrderCodec.NatToString | Plugin.MenuArrangement/Logic/CustomMenuOrderStorage.cs:59 | a level is written as a non-empty run of decimal digits |
| OrderCodec.TrimLeadingWhite | Plugin.MenuArrangement/Logic/CustomMenuOrderStorage.cs:133 | `Int32.Parse` skips leading white space: the rest is empty or starts with a non-white character |
| OrderCodec.TrimTrailingWhite | Plugin.MenuArrangement/Logic/CustomMenuOrderStorage.cs:133 | `Int32.Parse` skips trailing white space: the rest is empty or ends with a non-white character |
| OrderCodec.ParseInt32 | Plugin.MenuArrangement/Logic/CustomMenuOrderStorage.cs:133 | a parsed level lies in the `Int32` range |
| OrderCodec.ParseNatToString | Plugin.MenuArrangement/Logic/CustomMenuOrderStorage.cs:133 | parsing a level the serialiser wrote gives it back (round trip) |
| OrderCodec.SplitOn | Plugin.MenuArrangement/Logic/CustomMenuOrderStorage.cs:126 | `Split` always yields at least one piece |
| OrderCodec.NonEmpty | Plugin.MenuArrangement/Logic/CustomMenuOrderStorage.cs:86 | `RemoveEmptyEntries` keeps only non-empty pieces of the split |
| OrderCodec.Fragments | Plugin.MenuArrangement/Logic/CustomMenuOrderStorage.cs:86 | every fragment is non-empty and is one of the pieces of the split on `;` |
| OrderCodec.Classify | Plugin.MenuArrangement/Logic/CustomMenuOrderStorage.cs:126-134 | no contract of its own: a split other than two parts is `Malformed`, an unparsable level `BadLevel`; `ClassifyTokenText` and `ParseInt32` state what a token reads as |
| OrderCodec.Classified | Plugin.MenuArrangement/Logic/CustomMenuOrderStorage.cs:125-134 | one entry is read per fragment |
| OrderCodec.TokenTexts | Plugin.MenuArrangement/Logic/CustomMenuOrderStorage.cs:59 | one `level:identifier` text per visit, in order |
| OrderCodec.SerializeMenuItems | Plugin.MenuArrangement/Logic/CustomMenuOrderStorage.cs:49-65 | nothing is written exactly when no child is left from index `i` |
| OrderCodec.SerializedEndsWithSeparator | Plugin.MenuArrangement/Logic/CustomMenuOrderStorage.cs:59 | a non-empty written text ends with `;` |
| OrderCodec.SerializeMenuOrder | Plugin.MenuArrangement/Logic/CustomMenuOrderStorage.cs:41-46 | the saved text is empty exactly when the main menu is, and otherwise ends with `;` |
| OrderCodec.AddFirst | Plugin.MenuArrangement/Logic/CustomMenuOrderStorage.cs:105-106 | an identifier already in the map keeps its item |
| OrderCodec.SerializeWritesWalk | Plugin.MenuArrangement/Logic/CustomMenuOrderStorage.cs:49-65 | the serialiser writes exactly the `;`-terminated tokens of the pre-order walk |
| OrderCodec.FragmentsOfJoined | Plugin.MenuArrangement/Logic/CustomMenuOrderStorage.cs:86 | splitting a text of `;`-terminated non-empty pieces gives the pieces back |
| OrderCodec.ClassifyTokenText | Plugin.MenuArrangement/Logic/CustomMenuOrderStorage.cs:126-134 | a token with no `:` in its identifier and a level within `Int32` reads back as itself |
| OrderCodec.TokenTextsReadBack | Plugin.MenuArrangement/Logic/CustomMenuOrderStorage.cs:59 | every written token is non-empty, has no `;` and reads back as its visit |
| OrderCodec.DecodeSerialized | Plugin.MenuArrangement/Logic/CustomMenuOrderStorage.cs:41-46 | decoding the saved text of a menu whose identifiers avoid `:` and `;` gives each visit's depth and identifier (round trip) |
| OrderCodec.AddFirstKeys | Plugin.MenuArrangement/Logic/CustomMenuOrderStorage.cs:97-114 | the map's keys are the old keys plus the identifier of every visited item |
| OrderCodec.AddFirstMapsAll | Plugin.MenuArrangement/Logic/CustomMenuOrderStorage.cs:99-113 | every visited identifier ends up a key of the map |
| OrderCodec.MenuItemMap | Plugin.MenuArrangement/Logic/CustomMenuOrderStorage.cs:97-114 | every key maps to an existing item, and every identifier of the pre-order walk is a key |
| OrderCodec.AddFirstKeepsFirst | Plugin.MenuArrangement/Logic/CustomMenuOrderStorage.cs:105-106 | a new identifier maps to the first visited item carrying it |
| OrderCodec.SerializedIdentifiersAreMapped | Plugin.MenuArrangement/Logic/CustomMenuOrderStorage.cs:97-114 | every identifier the serialiser writes is a key of the restorer's map |
| OrderRestorer.ChildSlice | Plugin.MenuArrangement/Logic/CustomMenuOrderStorage.cs:151-164 | the child slice holds only tokens deeper than the current level and ends at or before the stop index |
| OrderRestorer.Scan | Plugin.MenuArrangement/Logic/CustomMenuOrderStorage.cs:123-176 | the collecting loop keeps the arena valid, the items and the visibility flags |
| OrderRestorer.Admit | Plugin.MenuArrangement/Logic/CustomMenuOrderStorage.cs:141-171 | accepting an item, including the recursive reorder of its children, keeps the items and the visibility flags |
| OrderRestorer.Reconcile | Plugin.MenuArrangement/Logic/CustomMenuOrderStorage.cs:117-213 | `ApplyMenuOrderFromEntries` keeps the items and the visibility flags |
| OrderRestorer.Place | Plugin.MenuArrangement/Logic/CustomMenuOrderStorage.cs:181-211 | the placing loop keeps the items and the visibility flags |
| OrderRestorer.Restore | Plugin.MenuArrangement/Logic/CustomMenuOrderStorage.cs:80-94 | `DeserializeAndApply` keeps the items and the visibility flags |
| OrderRestorer.Moved | Plugin.MenuArrangement/Logic/CustomMenuOrderStorage.cs:185-210 | one placing round changes only the collections |
| OrderRestorer.PlaceStep | Plugin.MenuArrangement/Logic/CustomMenuOrderStorage.cs:183-211 | one round of the placing loop followed by the rest is the whole loop |
| OrderRestorer.AddFirstStep | Plugin.MenuArrangement/Logic/CustomMenuOrderStorage.cs:99-113 | one round of the map loop: the item's identifier first, then its drop-down children, then the rest |
| OrderRestorer.MenuOrderRestorer.constructor | Plugin.MenuArrangement/Logic/CustomMenuOrderStorage.cs:74-77 | the restorer holds the root menu and an empty map |
| OrderRestorer.MenuOrderRestorer.DeserializeAndApply | Plugin.MenuArrangement/Logic/CustomMenuOrderStorage.cs:80-94 | the new menu and the fault flag are `Restore` of the old menu |
| OrderRestorer.MenuOrderRestorer.BuildMenuItemMap | Plugin.MenuArrangement/Logic/CustomMenuOrderStorage.cs:97-114 | the map becomes `AddFirst` over the pre-order walk |
| OrderRestorer.MenuOrderRestorer.FindItemLocation | Plugin.MenuArrangement/Logic/CustomMenuOrderStorage.cs:216-240 | returns true exactly when `Locate` finds the item, with its container and index; otherwise the ref arguments are unchanged |
| OrderRestorer.MenuOrderRestorer.ApplyMenuOrderFromEntries | Plugin.MenuArrangement/Logic/CustomMenuOrderStorage.cs:117-213 | the new menu and the fault flag are `Reconcile` of the old menu |
| OrderRestorer.MenuOrderRestorer.PlaceItems | Plugin.MenuArrangement/Logic/CustomMenuOrderStorage.cs:181-211 | the new menu and the fault flag are `Place` of the old menu |
| OrderRestorer.MenuOrderRestorer.MoveIntoPlace | Plugin.MenuArrangement/Logic/CustomMenuOrderStorage.cs:185-210 | faults exactly when the item is not found; otherwise the menu becomes `Moved` |
| OrderRestorer.CollectChildEntries | Plugin.MenuArrangement/Logic/CustomMenuOrderStorage.cs:151-164 | faults exactly when `ChildSlice` does; otherwise it returns that slice and the resume index |
| OrderRestorer.CollectStep | Plugin.MenuArrangement/Logic/CustomMenuOrderStorage.cs:156-161 | collecting a deeper token moves it from the unread part to the slice |
| OrderRestorer.ReadEntry | Plugin.MenuArrangement/Logic/CustomMenuOrderStorage.cs:125-134 | reading entry `index` gives its classification |
| OrderRestorer.RestoreMenuOrder | Plugin.MenuArrangement/Logic/CustomMenuOrderStorage.cs:19-27 | a null or empty saved order leaves the menu alone; otherwise the result is `Restore` |
| RestoreFacts.PlaceRearranges | Plugin.MenuArrangement/Logic/CustomMenuOrderStorage.cs:181-211 | the placing loop moves only items it places, losing and duplicating none |
| RestoreFacts.ScanRearranges | Plugin.MenuArrangement/Logic/CustomMenuOrderStorage.cs:123-176 | the same for the collecting loop |
| RestoreFacts.AdmitRearranges | Plugin.MenuArrangement/Logic/CustomMenuOrderStorage.cs:141-171 | the same for accepting one item |
| RestoreFacts.ReconcileRearranges | Plugin.MenuArrangement/Logic/CustomMenuOrderStorage.cs:117-213 | the same for `ApplyMenuOrderFromEntries` |
| RestoreFacts.AdmitDropDownRearranges | Plugin.MenuArrangement/Logic/CustomMenuOrderStorage.cs:148-170 | accepting a drop-down and reordering its children moves only items the map names, losing and duplicating none |
| RestoreFacts.RestoreRearranges | Plugin.MenuArrangement/Logic/CustomMenuOrderStorage.cs:80-94 | a restore loses and duplicates no item, and only items an identifier names move |
| RestoreFacts.PlacePrefix | Plugin.MenuArrangement/Logic/CustomMenuOrderStorage.cs:181-211 | without a fault, the container starts with the placed items, in order |
| RestoreFacts.PlaceInPlace | Plugin.MenuArrangement/Logic/CustomMenuOrderStorage.cs:192-200 | when every item is already at its index, nothing moves |
| RestoreFacts.RelocatePrefix | Plugin.MenuArrangement/Logic/CustomMenuOrderStorage.cs:200-210 | moving the next item to index `i` of the container extends the placed prefix by that item |
| RestoreFacts.LocateIffVisited | Plugin.MenuArrangement/Logic/CustomMenuOrderStorage.cs:216-240 | `FindItemLocation` from the root finds exactly the items the pre-order walk meets |
| RestoreFacts.ChildSliceIgnoresMalformed | Plugin.MenuArrangement/Logic/CustomMenuOrderStorage.cs:152-164 | a malformed entry changes the child slice only by its shifted indices |
| RestoreFacts.ScanIgnoresMalformed | Plugin.MenuArrangement/Logic/CustomMenuOrderStorage.cs:126-131 | a malformed entry does not change the collecting loop's outcome |
| RestoreFacts.AdmitIgnoresMalformed | Plugin.MenuArrangement/Logic/CustomMenuOrderStorage.cs:141-171 | nor the outcome of accepting an item |
| RestoreFacts.AdmitDropDownIgnoresMalformed | Plugin.MenuArrangement/Logic/CustomMenuOrderStorage.cs:148-170 | nor that of accepting a drop-down and reordering its children |
| RestoreFacts.AdmitLeaf | Plugin.MenuArrangement/Logic/CustomMenuOrderStorage.cs:141-146 | accepting a non-drop-down resumes at the next entry with the item collected |
| RestoreFacts.AdmitSlicedIgnoresMalformed | Plugin.MenuArrangement/Logic/CustomMenuOrderStorage.cs:152-170 | once the child slices agree, accepting a drop-down has the same outcome with or without a malformed entry |
| RestoreFacts.AdmitSliceFault | Plugin.MenuArrangement/Logic/CustomMenuOrderStorage.cs:158 | an unparsable level inside a child slice faults |
| RestoreFacts.AdmitChildFault | Plugin.MenuArrangement/Logic/CustomMenuOrderStorage.cs:167-170 | a fault in the children's reorder ends the whole reorder |
| RestoreFacts.AdmitDescends | Plugin.MenuArrangement/Logic/CustomMenuOrderStorage.cs:148-170 | otherwise the scan resumes past the slice, on the reordered tree |
| RestoreFacts.ReconcileIgnoresMalformed | Plugin.MenuArrangement/Logic/CustomMenuOrderStorage.cs:126-131 | a malformed entry anywhere in the order has no effect |
| RestoreFacts.ReconcileIgnoresMalformedFragment | Plugin.MenuArrangement/Logic/CustomMenuOrderStorage.cs:126-131 | the same for a saved fragment that does not split into two parts |
| SelfOrder.MapFindsVisited | Plugin.MenuArrangement/Logic/CustomMenuOrderStorage.cs:105-106 | with unique identifiers, the map sends each visited identifier to that item |
| SelfOrder.LocateUnique | Plugin.MenuArrangement/Logic/CustomMenuOrderStorage.cs:216-240 | with unique identifiers, `FindItemLocation` answers the slot where the walk met the item |
| SelfOrder.Tokens | Plugin.MenuArrangement/Logic/CustomMenuOrderStorage.cs:59 | one token per visit |
| SelfOrder.ReadsOwnTokens | Plugin.MenuArrangement/Logic/CustomMenuOrderStorage.cs:86 | the saved text of a persistable menu reads back as the tokens of its walk |
| SelfOrder.ChildSliceOfDeeper | Plugin.MenuArrangement/Logic/CustomMenuOrderStorage.cs:152-164 | a run of deeper tokens ended by a shallower one is exactly the child slice |
| SelfOrder.WalkStep | Plugin.MenuArrangement/Logic/CustomMenuOrderStorage.cs:51-64 | the walk from child `i`: its visit, the visits below it, then the later children |
| SelfOrder.BelowDeeper | Plugin.MenuArrangement/Logic/CustomMenuOrderStorage.cs:62-63 | visits below a child are deeper than the child |
| SelfOrder.WalkStartsAtLevel | Plugin.MenuArrangement/Logic/CustomMenuOrderStorage.cs:59 | a container's walk starts at the container's level |
| SelfOrder.OwnTokensSplit | Plugin.MenuArrangement/Logic/CustomMenuOrderStorage.cs:51-64 | the saved tokens of child `i` are its own token, those below it, then the later children's |
| SelfOrder.OwnTokensNest | Plugin.MenuArrangement/Logic/CustomMenuOrderStorage.cs:59-63 | the tokens below a child are deeper, and the next token is not |
| SelfOrder.OwnChildrenInPlace | Plugin.MenuArrangement/Logic/CustomMenuOrderStorage.cs:192-200 | placing a container's own children moves nothing |
| SelfOrder.ScanOwnTokens | Plugin.MenuArrangement/Logic/CustomMenuOrderStorage.cs:123-176 | scanning a container's own tokens moves nothing and does not fault |
| SelfOrder.ScanOwnEnd | Plugin.MenuArrangement/Logic/CustomMenuOrderStorage.cs:181-211 | past the last child the scan places the children where they are |
| SelfOrder.ScanOwnStep | Plugin.MenuArrangement/Logic/CustomMenuOrderStorage.cs:141-171 | the scan accepts child `i` by its own token and resumes at child `i + 1` |
| SelfOrder.AdmitOwnDropDown | Plugin.MenuArrangement/Logic/CustomMenuOrderStorage.cs:148-170 | a drop-down's own slice reorders its children without change |
| SelfOrder.OwnChildSlice | Plugin.MenuArrangement/Logic/CustomMenuOrderStorage.cs:152-164 | the slice after child `i`'s token is the tokens below it |
| SelfOrder.DeeperRunSlice | Plugin.MenuArrangement/Logic/CustomMenuOrderStorage.cs:152-164 | a deeper run ended by a shallower token is the child slice |
| SelfOrder.OwnChildrenReconciled | Plugin.MenuArrangement/Logic/CustomMenuOrderStorage.cs:117-213 | a drop-down's own tokens reorder it without change |
| SelfOrder.RestoreOwnOrderChangesNothing | Plugin.MenuArrangement/Logic/CustomMenuOrderStorage.cs:12-27 | restoring the order just saved from a persistable menu moves nothing and does not fault |
| SelfOrder.DepthsFit | Plugin.MenuArrangement/Logic/CustomMenuOrderStorage.cs:59 | with at most `Int32.MaxValue` items, every written level fits `Int32` |
| Visibility.Hidden | Plugin.MenuArrangement/Logic/CustomMenuOrderStorage.cs:260-286 | only hideable items (tool strip items with a non-empty identifier in the set) are hidden |
| Visibility.Hideable | Plugin.MenuArrangement/Logic/CustomMenuOrderStorage.cs:264-281 | an item is hidden only when its identifier is in the hidden set (and it is a tool strip item with a non-empty identifier) |
| Visibility.Hide | Plugin.MenuArrangement/Logic/CustomMenuOrderStorage.cs:281 | clearing flags keeps the number of flags |
| Visibility.ApplyHidden | Plugin.MenuArrangement/Logic/CustomMenuOrderStorage.cs:254-257 | applying the hidden set keeps the items and every collection |
| Visibility.MenuVisibilityRestorer.constructor | Plugin.MenuArrangement/Logic/CustomMenuOrderStorage.cs:248-251 | the restorer holds the root menu |
| Visibility.MenuVisibilityRestorer.ApplyHiddenItems | Plugin.MenuArrangement/Logic/CustomMenuOrderStorage.cs:254-257 | the new menu is `ApplyHidden` of the old one |
| Visibility.MenuVisibilityRestorer.ApplyHiddenItemsRecursive | Plugin.MenuArrangement/Logic/CustomMenuOrderStorage.cs:260-286 | clears exactly the flags in `Hidden` for the collection; no collection changes |
| Visibility.MenuVisibilityRestorer.ApplyToItem | Plugin.MenuArrangement/Logic/CustomMenuOrderStorage.cs:262-285 | one item: its drop-down children first, then the item itself |
| Visibility.RestoreHiddenItems | Plugin.MenuArrangement/Logic/CustomMenuOrderStorage.cs:30-38 | the menu becomes `ApplyHidden` of the old one, including under the empty-set guard |
| Visibility.HiddenUnfold | Plugin.MenuArrangement/Logic/CustomMenuOrderStorage.cs:262-285 | one loop round is the items below child `i` and child `i`, then the rest |
| Visibility.HiddenIffWalked | Plugin.MenuArrangement/Logic/CustomMenuOrderStorage.cs:260-286 | an item is hidden exactly when the walk meets it and it is hideable |
| Visibility.ApplyHiddenOnlyHides | Plugin.MenuArrangement/Logic/CustomMenuOrderStorage.cs:279-282 | visible after the restore exactly when visible before and not hidden: no item is ever shown |
| Visibility.HiddenIgnoresVisible | Plugin.MenuArrangement/Logic/CustomMenuOrderStorage.cs:273-283 | which items get hidden does not depend on the current flags |
| Visibility.ApplyHiddenIdempotent | Plugin.MenuArrangement/Logic/CustomMenuOrderStorage.cs:254-257 | applying the hidden set twice is applying it once |
| Visibility.EmptySetHidesNothingBelow | Plugin.MenuArrangement/Logic/CustomMenuOrderStorage.cs:279 | the empty set hides nothing in any collection |
| Visibility.EmptySetHidesNothing | Plugin.MenuArrangement/Logic/CustomMenuOrderStorage.cs:33-34 | the empty-set guard changes no outcome |
| Arrangement.Collection | Plugin.MenuArrangement/PanelMenuArrangement.cs:227-246 | the top level stands for the main menu; a node stands for its own item's collection, never the main menu |
| Arrangement.Index | Plugin.MenuArrangement/PanelMenuArrangement.cs:295 | `TreeNode.Index` is the position at which the node stands in its own list |
| Arrangement.IndexOf | Plugin.MenuArrangement/PanelMenuArrangement.cs:205-213 | -1 exactly when absent; otherwise the first index holding the item |
| Arrangement.ItemAtIndex | Plugin.MenuArrangement/PanelMenuArrangement.cs:259 | under the mirror, `GetItemIndex` on the current collection finds the item at the node's own index |
| Arrangement.MoveNode | Plugin.MenuArrangement/PanelMenuArrangement.cs:219-286 | a move keeps every node's item and check box, the number of nodes and parents, the items, the visibility flags, the main menu and the number of collections; where it lands is `MoveNodeLands`, what it keeps `MoveNodeKeepsMirror` and `MoveNodeConserves` |
| Arrangement.DetachShows | Plugin.MenuArrangement/PanelMenuArrangement.cs:252-261 | removing the node and its item keeps every list showing its collection |
| Arrangement.AttachMirror | Plugin.MenuArrangement/PanelMenuArrangement.cs:267-278 | inserting node and item at the same index restores the mirror |
| Arrangement.MoveNodeKeepsMirror | Plugin.MenuArrangement/PanelMenuArrangement.cs:219-286 | `MoveNode` keeps the tree view a mirror of the menu |
| Arrangement.CollectionsDiffer | Plugin.MenuArrangement/PanelMenuArrangement.cs:264 | different node lists stand for different collections, so the same-collection test is a same-list test |
| Arrangement.MoveNodeParts | Plugin.MenuArrangement/PanelMenuArrangement.cs:252-278 | `MoveNode` is a detach and attach at the adjusted index, plus a remove and insert of the item at the same indices |
| Arrangement.MoveNodeSplits | Plugin.MenuArrangement/PanelMenuArrangement.cs:252-278 | the same, given only that the item stands at the node's index |
| Arrangement.MoveNodeViewSplits | Plugin.MenuArrangement/PanelMenuArrangement.cs:252-272 | the view half of the split |
| Arrangement.DetachAttachLists | Plugin.MenuArrangement/PanelMenuArrangement.cs:252-272 | the lists after removal and insertion, list by list; only the node's parent changes |
| Arrangement.MoveNodeShape | Plugin.MenuArrangement/PanelMenuArrangement.cs:252-278 | both halves of the move, list by list and collection by collection |
| Arrangement.MoveNodeConserves | Plugin.MenuArrangement/PanelMenuArrangement.cs:219-286 | a move loses and duplicates no menu entry and keeps every other item in order |
| Arrangement.MoveNodeKeepsCollections | Plugin.MenuArrangement/PanelMenuArrangement.cs:219-286 | a move keeps every node's item and every item's attributes |
| Arrangement.InsertOrAddLands | Plugin.MenuArrangement/PanelMenuArrangement.cs:269-272 | `Insert` or `Add` puts the node at the requested index when it is in range, and at the end otherwise |
| Arrangement.Landing | Plugin.MenuArrangement/PanelMenuArrangement.cs:263-278 | the landing index lies within the target list without the node |
| Arrangement.MoveNodeLandsInView | Plugin.MenuArrangement/PanelMenuArrangement.cs:267-272 | the node ends in the target list at its landing index, with the new parent |
| Arrangement.DetachAttachLands | Plugin.MenuArrangement/PanelMenuArrangement.cs:263-272 | the same on the view operations alone |
| Arrangement.MoveNodeLandsInMenu | Plugin.MenuArrangement/PanelMenuArrangement.cs:274-278 | the item ends in the target collection at the same index |
| Arrangement.MoveNodeLands | Plugin.MenuArrangement/PanelMenuArrangement.cs:219-286 | no target collection: nothing changes; otherwise node and item land at the same index |
| Arrangement.MoveNodeKeepsForest | Plugin.MenuArrangement/PanelMenuArrangement.cs:219-286 | a move to a list outside the node's subtree keeps every parent chain finite |
| Arrangement.DescendantStep | Plugin.MenuArrangement/PanelMenuArrangement.cs:485-495 | `IsDescendant` one step up: the node itself, or its parent's answer |
| Arrangement.MirrorIgnoresVisible | Plugin.MenuArrangement/PanelMenuArrangement.cs:454-455 | changing visibility keeps the mirror |
| Editing.MoveWithinList | Plugin.MenuArrangement/PanelMenuArrangement.cs:252-278 | a move within the node's own list edits only that list and its collection, identically |
| Editing.MoveUp | Plugin.MenuArrangement/PanelMenuArrangement.cs:289-297 | move up keeps every node's item and parent, the items and the visibility flags; `MoveUpSwaps` states the swap |
| Editing.MoveDown | Plugin.MenuArrangement/PanelMenuArrangement.cs:300-311 | move down as written keeps every node's item and parent, the items and the visibility flags; `MoveDownKeepsOrder` states that it changes nothing |
| Editing.MoveDownPastSuccessor | Plugin.MenuArrangement/PanelMenuArrangement.cs:300-311 | the corrected move down keeps every node's item and parent, the items and the visibility flags; `MoveDownPastSuccessorSwaps` states the swap |
| Editing.Indent | Plugin.MenuArrangement/PanelMenuArrangement.cs:314-326 | indent keeps every node's item, the items and the visibility flags; `IndentAppends` states where the node goes |
| Editing.Outdent | Plugin.MenuArrangement/PanelMenuArrangement.cs:329-342 | outdent keeps every node's item, the items and the visibility flags; `OutdentPlacesAfterParent` states where the node goes |
| Editing.ReinsertBefore | Plugin.MenuArrangement/PanelMenuArrangement.cs:289-297 | removing the node at `i` and reinserting it at `i - 1` swaps it with its predecessor |
| Editing.ReinsertAfter | Plugin.MenuArrangement/PanelMenuArrangement.cs:300-311 | removing the node at `i` and reinserting it at `i + 1` swaps it with its successor |
| Editing.SameListKeepsForest | Plugin.MenuArrangement/PanelMenuArrangement.cs:289-311 | any move within the node's own list keeps the view a forest |
| Editing.MoveUpSwaps | Plugin.MenuArrangement/PanelMenuArrangement.cs:289-297 | move up swaps the node with its predecessor, in the view and the menu alike |
| Editing.MoveDownKeepsOrder | Plugin.MenuArrangement/PanelMenuArrangement.cs:300-311 | as written, move down leaves both trees unchanged |
| Editing.ReinsertAtOwnIndex | Plugin.MenuArrangement/PanelMenuArrangement.cs:263-265 | `MoveNode` to `Index + 1` in its own list changes nothing |
| Editing.MoveDownPastSuccessorSwaps | Plugin.MenuArrangement/PanelMenuArrangement.cs:300-311 | corrected move down swaps the node with its successor in both trees |
| Editing.MoveDownSwapsLists | Plugin.MenuArrangement/PanelMenuArrangement.cs:300-311 | the same, list by list |
| Editing.MoveUpMoves | Plugin.MenuArrangement/PanelMenuArrangement.cs:289-297 | move up does nothing on a first node; otherwise it is one `MoveNode` |
| Editing.OutdentMoves | Plugin.MenuArrangement/PanelMenuArrangement.cs:329-342 | outdent does nothing at the top level; otherwise it is one `MoveNode` |
| Editing.PreviousSibling | Plugin.MenuArrangement/PanelMenuArrangement.cs:314-326 | indent's new parent is the node just before it, and not the node's parent |
| Editing.IndentAppends | Plugin.MenuArrangement/PanelMenuArrangement.cs:314-326 | indent makes the node the last child of its predecessor, or changes nothing when that item has no collection |
| Editing.IndentMenu | Plugin.MenuArrangement/PanelMenuArrangement.cs:258-278 | indent removes the item from its collection at the node's index and appends it to the collection of the previous sibling's item |
| Editing.OutdentUndoesIndent | Plugin.MenuArrangement/PanelMenuArrangement.cs:314-342 | an outdent right after an indent that moved the node restores both trees exactly |
| Editing.IndentThenOutdent | Plugin.MenuArrangement/PanelMenuArrangement.cs:314-342 | the same round trip when the predecessor owns a collection |
| Editing.OutdentAfterIndent | Plugin.MenuArrangement/PanelMenuArrangement.cs:337-341 | outdent moves the node to just after its former parent |
| Editing.Quotient | Plugin.MenuArrangement/PanelMenuArrangement.cs:417 | C#'s `/` agrees with Euclidean division on non-negative operands |
| Editing.DropZone | Plugin.MenuArrangement/PanelMenuArrangement.cs:411-432 | for a node of non-negative height: before exactly when `3 * relativeY + 3 <= nodeHeight`, after exactly when `3 * relativeY > 2 * nodeHeight`; these are the thirds in exact arithmetic |
| Editing.Drop | Plugin.MenuArrangement/PanelMenuArrangement.cs:403-434 | a drop keeps every node's item, the items and the visibility flags; `DropMoves`, `DropBefore`, `DropAfter` and `DropInside` state where the node goes |
| Editing.MoveNextToTarget | Plugin.MenuArrangement/PanelMenuArrangement.cs:419-426 | a move to the target's index puts the node right before the target; to the next index, right after it |
| Editing.NextToTargetOrder | Plugin.MenuArrangement/PanelMenuArrangement.cs:417-426 | after the move the dragged node and the target share a parent, and the dragged node is just before (or just after) the target |
| Editing.DropMoves | Plugin.MenuArrangement/PanelMenuArrangement.cs:394-435 | a drop that is not rejected is the move the drop zone picks |
| Editing.DropBefore | Plugin.MenuArrangement/PanelMenuArrangement.cs:417-421 | upper third: the dragged node ends right before the target |
| Editing.DropAfter | Plugin.MenuArrangement/PanelMenuArrangement.cs:422-426 | lower third: the dragged node ends right after the target |
| Editing.DropInside | Plugin.MenuArrangement/PanelMenuArrangement.cs:427-432 | middle third: the last child of the target, or nothing when its item has no collection |
| Editing.MoveToLastChild | Plugin.MenuArrangement/PanelMenuArrangement.cs:431 | moving to the end of a node's children makes the moved node their last |
| Editing.MoveUpKeepsForest | Plugin.MenuArrangement/PanelMenuArrangement.cs:289-297 | move up keeps the view a forest |
| Editing.MoveDownKeepsForest | Plugin.MenuArrangement/PanelMenuArrangement.cs:300-311 | move down, as written and corrected, keeps the view a forest |
| Editing.IndentKeepsForest | Plugin.MenuArrangement/PanelMenuArrangement.cs:314-326 | indent keeps the view a forest |
| Editing.OutdentKeepsForest | Plugin.MenuArrangement/PanelMenuArrangement.cs:329-342 | outdent keeps the view a forest |
| Editing.DropKeepsForest | Plugin.MenuArrangement/PanelMenuArrangement.cs:403-408 | rejecting targets inside the dragged subtree keeps the view a forest |
| Editing.OutdentPlacesAfterParent | Plugin.MenuArrangement/PanelMenuArrangement.cs:337-341 | outdent puts the node right after its former parent, in the grandparent's list |
| Panel.GetItemIndex | Plugin.MenuArrangement/PanelMenuArrangement.cs:205-213 | -1 for a missing collection or item; otherwise `IndexOf` |
| Panel.ButtonStates | Plugin.MenuArrangement/PanelMenuArrangement.cs:184-201 | nothing selected: every button is off; move up and indent are enabled together; move up or move down enabled means the node has a sibling |
| Panel.IsDescendant | Plugin.MenuArrangement/PanelMenuArrangement.cs:485-495 | the parent-chain walk answers whether the ancestor lies on the node's chain |
| Panel.SwappedMoves | Plugin.MenuArrangement/PanelMenuArrangement.cs:300-311 | swapping a node with its successor always changes the arrangement, so the corrected move down is never a no-op |
| Panel.OwnListOutsideSubtree | Plugin.MenuArrangement/PanelMenuArrangement.cs:289-342 | in a forest, a node's own parent lies outside its subtree, so moves within its own list meet `MoveNode`'s precondition |
| Panel.ButtonsGuardCommands | Plugin.MenuArrangement/PanelMenuArrangement.cs:170-202 | move up and outdent are enabled exactly when their command changes the arrangement; move up then swaps the node with its predecessor; a disabled indent changes nothing; move down as written never changes anything, and when its button is enabled the corrected move swaps the node with its successor |
| Panel.Settings.constructor | Plugin.MenuArrangement/Settings.cs:9-22 | the settings hold the given order and hidden set |
| Panel.Settings.SetCustomMenuOrder | Plugin.MenuArrangement/Settings.cs:12-16 | sets the saved order only |
| Panel.Settings.SetHiddenMenuItems | Plugin.MenuArrangement/PanelMenuArrangement.cs:457 | sets the stored hidden set only |
| Panel.PanelMenuArrangement.constructor | Plugin.MenuArrangement/PanelMenuArrangement.cs:32-49 | reads the hidden set and fills the view as `Loaded`, which mirrors the menu; enables reset when an order is saved or an item hidden |
| Panel.PanelMenuArrangement.LoadMenuItems | Plugin.MenuArrangement/PanelMenuArrangement.cs:60-75 | the view becomes `Loaded` of the menu and the hidden set |
| Panel.PanelMenuArrangement.CreateTreeNode | Plugin.MenuArrangement/PanelMenuArrangement.cs:78-106 | returns the next node id; the view becomes `Created` of the old view |
| Panel.PanelMenuArrangement.MoveNode | Plugin.MenuArrangement/PanelMenuArrangement.cs:219-286 | both trees become `MoveNode` of the old state, the mirror and forest are kept, and a move with a target collection saves the new order |
| Panel.PanelMenuArrangement.MoveUp | Plugin.MenuArrangement/PanelMenuArrangement.cs:289-297 | the state becomes `Editing.MoveUp`; any change is saved |
| Panel.PanelMenuArrangement.MoveDown | Plugin.MenuArrangement/PanelMenuArrangement.cs:300-311 | the state is unchanged (as written) and the order is saved when the button would be enabled |
| Panel.PanelMenuArrangement.Indent | Plugin.MenuArrangement/PanelMenuArrangement.cs:314-326 | the state becomes `Editing.Indent`; any change is saved |
| Panel.PanelMenuArrangement.Outdent | Plugin.MenuArrangement/PanelMenuArrangement.cs:329-342 | the state becomes `Editing.Outdent`; any change is saved |
| Panel.PanelMenuArrangement.DragDrop | Plugin.MenuArrangement/PanelMenuArrangement.cs:394-435 | the state becomes `Drop`; any change is saved |
| Panel.PanelMenuArrangement.AfterCheck | Plugin.MenuArrangement/PanelMenuArrangement.cs:438-459 | the identifier is hidden exactly when the box is unchecked, no other identifier changes, a tool strip item's visibility follows the box, and the set is stored |
| Panel.PanelMenuArrangement.Reset | Plugin.MenuArrangement/PanelMenuArrangement.cs:497-502 | the saved order and both hidden sets are cleared; the view is unchanged |
| Panel.RemoveFromCollection | Plugin.MenuArrangement/PanelMenuArrangement.cs:258-261 | returns `GetItemIndex` and removes the item there when found |
| Panel.InsertIntoCollection | Plugin.MenuArrangement/PanelMenuArrangement.cs:274-278 | `Insert` at `k` in range, otherwise `Add` |
| Panel.MoveItem | Plugin.MenuArrangement/PanelMenuArrangement.cs:258-278 | remove, correct the index, then insert; the result is stated collection by collection |
| Panel.MoveNodeSteps | Plugin.MenuArrangement/PanelMenuArrangement.cs:252-278 | the handler's steps compose to `MoveNode` and keep the mirror and forest |
| TreeBuild.Subtree | Plugin.MenuArrangement/PanelMenuArrangement.cs:78-106 | `CreateTreeNode(x)` meets `x` first |
| TreeBuild.IsChecked | Plugin.MenuArrangement/PanelMenuArrangement.cs:89 | with nothing hidden every box is checked; for a tool strip item with a non-empty identifier, checked exactly when the visibility restorer would not hide it |
| TreeBuild.NewNode | Plugin.MenuArrangement/PanelMenuArrangement.cs:86-90 | the view has one node more; the new last node shows the item, has no children, no parent and the given check box; the top-level list is unchanged |
| TreeBuild.AddChild | Plugin.MenuArrangement/PanelMenuArrangement.cs:101 | adding a child keeps every node's item |
| TreeBuild.Created | Plugin.MenuArrangement/PanelMenuArrangement.cs:78-106 | `CreateTreeNode` creates at least its own node |
| TreeBuild.ChildrenAdded | Plugin.MenuArrangement/PanelMenuArrangement.cs:96-103 | the child loop only adds nodes |
| TreeBuild.LoadedFrom | Plugin.MenuArrangement/PanelMenuArrangement.cs:64-68 | the top-level loop only adds nodes |
| TreeBuild.NewNodeOk | Plugin.MenuArrangement/PanelMenuArrangement.cs:86-90 | creating a node for a new item keeps the builder's invariant |
| TreeBuild.AddChildOk | Plugin.MenuArrangement/PanelMenuArrangement.cs:101 | adding the next child keeps the invariant |
| TreeBuild.AddTopOk | Plugin.MenuArrangement/PanelMenuArrangement.cs:67 | adding the next top-level node keeps the invariant |
| TreeBuild.CreatedOk | Plugin.MenuArrangement/PanelMenuArrangement.cs:78-106 | `CreateTreeNode` creates nodes for its subtree, in order, with complete child lists, and touches no existing list |
| TreeBuild.EnteredOk | Plugin.MenuArrangement/PanelMenuArrangement.cs:96-103 | a node with a collection receives its whole collection |
| TreeBuild.ChildrenOk | Plugin.MenuArrangement/PanelMenuArrangement.cs:98-102 | the child loop fills the node's list to the end of its collection |
| TreeBuild.ChildCreatedOk | Plugin.MenuArrangement/PanelMenuArrangement.cs:100-101 | one round of the child loop grows the list by one |
| TreeBuild.LoadedFromOk | Plugin.MenuArrangement/PanelMenuArrangement.cs:64-68 | the top-level loop fills the top-level list |
| TreeBuild.FinishedMirrors | Plugin.MenuArrangement/PanelMenuArrangement.cs:60-75 | a finished view mirrors the menu and is a forest |
| TreeBuild.Loaded | Plugin.MenuArrangement/PanelMenuArrangement.cs:60-106 | on a menu that is a tree as far as the builder descends, the loaded view mirrors the menu, is a forest, shows the items in the builder's pre-order, and each box is `IsChecked` of its item |

## Left out

- Windows Forms presentation: node texts, `GetMenuItemDisplayText`, `ApplyNodeStyling`, fonts and colours, expanding nodes, selecting and scrolling to a node, and enabling the buttons. `tvMenuItems_AfterSelect` is modelled as a function of the selection (`Panel.ButtonStates`).
- `tvMenuItems_KeyDown` (PanelMenuArrangement.cs:461-482) only maps Ctrl+arrow keys to the handlers when their button is enabled. `Panel.ButtonsGuardCommands` states what that guard means; the key mapping is not modelled.
- The drag start, drag-over feedback, `PointToClient` and `GetNodeAt`: the drop handler receives the dragged node, the target node, `relativeY` and `nodeHeight` as parameters.
- `Plugin.cs` startup, which calls the two restorers one after the other (Plugin.cs:83-84): each restorer is modelled on its own.
- How the hidden set is encoded in the settings (`GetHiddenMenuItemsSet`, `SetHiddenMenuItemsSet`) is not part of this model. The settings hold the set itself, and `None` stands for null.
- Settings change notification (`INotifyPropertyChanged`) is not modelled.
- Null items, null tags, and a tag that is not a menu item are not modelled: every node shows one item.
- Collection identity at PanelMenuArrangement.cs:264 is modelled as "same container". The host's `Items` property is assumed to return the same collection object for the same menu.
- Exceptions are not modelled as such. `Int32.Parse` failure and the null dereference at CustomMenuOrderStorage.cs:194 become a `faulted` result with the tree at the point of failure. Any other exception the host could raise is not modelled.
- Every walk carries the `free` guard, which stops a descent into an id already on the current path. On a cyclic host menu the source would not terminate; the model does.
- Editing.DropZone: states the drop zones for the exact value of `2 * nodeHeight` and does not model its 32-bit overflow, because a node's height in pixels is far below `Int32.MaxValue / 2`.
- Panel.PanelMenuArrangement.MoveNode: requires the new parent to lie outside the node's subtree, which the source does not check there. Every handler meets this: `Editing.DropKeepsForest`, `Editing.IndentKeepsForest` and `Editing.OutdentKeepsForest` show it.
- Panel.PanelMenuArrangement.constructor: requires the menu to be a tree as far as the builder descends (`TreeBuild.TreeShaped`: no item met twice). The source assumes this of the host menu.
- Panel.PanelMenuArrangement.AfterCheck: the tree view toggles the check box before the handler runs; the model receives the view with the box already toggled.
- Panel.PanelMenuArrangement.MoveDown: models the handler as written, so its state is unchanged. The corrected move is `Editing.MoveDownPastSuccessor`, which the button-state lemma uses.

## Findings

| source | as written | input that shows it | evidently intended | confidence | as-written member | corrected member |
|---|---|---|---|---|---|---|
| Plugin.MenuArrangement/PanelMenuArrangement.cs:300-311 with 263-265 | move down calls `MoveNode(node, parent, Index + 1)`. `MoveNode` first removes the node, then lowers the index by one because the old index lies before it, and reinserts the node at its old index | any node that is not last in its list, e.g. the first of two top-level items: both trees stay as they were, and the same order is saved again | the node swaps places with its successor, which `MoveNode(node, parent, Index + 2)` does | not executed; depends on `Items` returning the same collection object for the same menu | Editing.MoveDown, Editing.MoveDownKeepsOrder | Editing.MoveDownPastSuccessor, Editing.MoveDownPastSuccessorSwaps |
