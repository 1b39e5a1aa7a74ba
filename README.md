# crawl, modelled in Dafny

A model of the parsing core of the `crawl` toolkit:

- the nil-safe HTML node API (`html/html.go`): attribute lookup, class and tag
  searches, pointer walks and plain text;
- the page outliner (`outline/outline.go`): it finds the unique head and body and
  classifies body regions (navigation, main, sidebar, footer) and the articles
  of the main region;
- the content extractor (`outline/extract.go`): head metadata and navigation
  anchors;
- the `robots.txt` parser and its allow/deny decision (`robots/robots.go`);
- the line-based sitemap scanner (`sitemap/sitemap.go`);
- the Stack Exchange dump reader (`stackexchange/stackexchange.go`): row
  scanning, the integer parser, tag splitting and the row filter.

Modules:

- `Dom` is the parsed tree the HTML parser hands over. A node pointer is a
  `Cursor`: a position in an immutable `Tree`, or the synthetic parent that
  `FakeParent` allocates. `FirstChildOf`, `NextSiblingOf` and `ParentOf` are
  the pointer fields.
- `Html` is the node API. A nil `*Node` and a Node wrapping nil are both
  `None`.
- `Worklist` is the queue walk that `buildBody`, `buildMain`, `extractNav` and
  the head/body search of `Build` all perform. It walks the sibling chain of
  the current node and queues its first child unless the node stops the
  descent. When the chain runs out, it takes the front of the queue.
  `Worklist.Walk` is the sequence of nodes that walk visits. Its lemmas show
  that the walk below a node visits exactly the descendants with no stopping
  node in between, and visits them in level order.
- `Outline` and `Extract` are the `Outline` and `Document` objects. They are
  classes whose methods update fields in place, as the Go code does.
- `Robots`, `Sitemap` and `StackExchange` read byte strings (`seq<byte>`,
  modules `Bytes`, `Seqs` and `Wrappers` hold the shared helpers). Each loop is
  a method, proved equal to a function over the complete lines of the input.
  The properties are lemmas about those functions.

Some behaviour follows the code even where a plain reading of the package
documentation suggests otherwise:

- The last matching node wins for `MainNode`, `SidebarNode`, `FooterNode` and
  the document title.
- `Attr` with several keys returns the first attribute in the node's own
  attribute order, whatever the order of the keys.
- `extractNav` never finishes on an anchor whose href fails to parse (see
  Findings).
- A `Disallow:` value loses the byte right after the colon, whatever that byte
  is.

## Model

| member | source | states |
|---|---|---|
| Html.WordLen | html/html.go:93 | the leading word ends at the first white-space character |
| Html.Fields | html/html.go:93 | every field strings.Fields returns is a non-empty run of non-space characters |
| Html.WordLenOfWord | html/html.go:93 | a word followed by white space or nothing is read whole |
| Html.FieldsOfSpaced | html/html.go:93 | splitting space-joined words gives the words back |
| Html.IsElement | html/html.go:168-187 | false for nil and non-elements; with no names any element matches; otherwise the tag must be one of the names |
| Html.FirstChild | html/html.go:219-230 | the child's parent is the node, and the child's sibling chain is the rest of the subtree |
| Html.NextSibling | html/html.go:188-199 | a sibling has the same parent, and the chain is the node's subtree and then the rest |
| Html.Parent | html/html.go:269-280 | the node is among its parent's children |
| Html.FakeParent | html/html.go:300-306 | the synthetic parent has `n` as first child, no sibling, no parent and no attributes, and is not an element; its children are `n` and `n`'s following siblings |
| Html.AttrValueFirst | html/html.go:43-58 | Attr yields "" when no attribute has one of the keys, else the value of the first attribute that does |
| Html.Attr | html/html.go:43-58 | the loop returns the value of the first attribute whose key is among `keys` |
| Html.AttrIgnoresKeyOrder | html/html.go:50-56 | the result depends only on the set of keys, not their order |
| Html.HasClass | html/html.go:60-81 | true exactly when the node is an element and one of its class attributes lists the token |
| Html.PreOrderUnder | html/html.go:83-108 | the subtree search starts at the node itself and yields only nodes under it; Html.PreOrderCovers and Html.PreOrderDistinct give completeness and no repeats |
| Html.PreOrderChainUnder | html/html.go:104-106 | the searches over a child chain stay under the parent |
| Html.PreOrderHead | html/html.go:100-106 | a subtree search yields the node itself when it matches, then the matches under its children |
| Html.PreOrderChainStep | html/html.go:104-106 | the children loop yields one child's matches, then the rest of the chain's |
| Html.PreOrderCovers | html/html.go:83-108 | every node under the start node, the start node included, is visited by the subtree search |
| Html.PreOrderChainHas | html/html.go:104-106 | a node visited from any sibling on the chain is visited by the chain search |
| Html.PreOrderDistinct | html/html.go:83-108 | the subtree search visits no node twice |
| Html.PreOrderChainDistinct | html/html.go:104-106 | the searches over a child chain visit no node twice |
| Html.AllClassesListed | html/html.go:92-99 | the node carries every class token, stopping at the first missing one |
| Html.Classes | html/html.go:83-108 | every node of the subtree, in pre-order, that carries every class token; nil gives none |
| Html.ClassesUnder | html/html.go:104-106 | the children loop gives the pre-order matches of the whole chain |
| Html.ClassesWithoutTokens | html/html.go:92-102 | a class string without tokens selects every node of the subtree |
| Html.TagListed | html/html.go:152-159 | true exactly when the node is an element whose tag is one of the names |
| Html.Elements | html/html.go:144-166 | the elements of the subtree, in pre-order, whose tag is one of the names |
| Html.ElementsUnder | html/html.go:161-163 | the children loop gives the matching elements of the whole chain |
| Html.ElementsWithoutNames | html/html.go:152-159 | with no names nothing is selected |
| Html.Elements2 | html/html.go:308-326 | the callback sees exactly the nodes Elements returns, in the same order |
| Html.Elements2Under | html/html.go:323-325 | the children loop calls the callback on the chain's matches in pre-order |
| Html.ID | html/html.go:250-267 | the first node in pre-order whose id attribute equals `id`, or nil |
| Html.IdEmptyMatchesMissingId | html/html.go:257-259 | searching for "" returns the starting node when it has no id attribute |
| Html.ChainFirstStep | html/html.go:132-141 | a sibling-chain search tests the first node, then goes on with its next sibling |
| Html.NextElement | html/html.go:131-142 | the first child element whose tag is one of the names; nil when no name is given |
| Html.FirstChildElement | html/html.go:231-248 | the first child that is an element, or nil |
| Html.NextSiblingElement | html/html.go:200-217 | the first following sibling that is an element, or nil |
| Html.ParentElement | html/html.go:281-298 | the nearest ancestor that is an element, or nil |
| Html.TextChainStep | html/html.go:124-126 | the text of a chain is the first child's text followed by the rest |
| Html.PlainText | html/html.go:110-129 | a text node gives its data, any other node the text of its children concatenated |
| Html.TextContentIsTreeText | html/html.go:110-129 | the pointer walk gives the same text as structural recursion on the parsed tree |
| Html.TextChainIsForestText | html/html.go:124-126 | the sibling walk from child `i` gives the text of children `i` onward |
| Html.PlainTextExample | html/html.go:110-129 | `<p>Hello <b>World</b></p>` gives "Hello World" |
| Dom.FirstChildOf | html/html.go:219-230 | a node without a first child is a single-node subtree; otherwise the first child's chain holds the rest of the subtree |
| Dom.NextSiblingOf | html/html.go:188-199 | a node's chain is its subtree followed by its next sibling's chain |
| Dom.ParentOf | html/html.go:269-280 | a parent is shallower than its child |
| Dom.FirstChildLinks | html/html.go:219-230 | the first child sits at index 0 below its parent and points back to it |
| Dom.NextSiblingLinks | html/html.go:188-199 | the next sibling sits at the next index under the same parent |
| Dom.ChainHasLater | html/html.go:104 | every later sibling is on the sibling chain that starts at a node |
| Dom.KidOfParent | html/html.go:269-280 | every node is among the children of its parent |
| Dom.AncestorsShallower | html/html.go:288-297 | every ancestor is shallower than the node |
| Dom.BelowIsAncestor | html/html.go:288-297 | a node's ancestors include every node it lies below |
| Dom.LookupPrefix | html/html.go:269-280 | every ancestor path of an existing node leads to an existing node |
| Worklist.QueueSizeAppend | outline/outline.go:136-138 | queueing a first child adds its chain's nodes to the work left |
| Worklist.StepShrinks | outline/outline.go:117-142 | each visit strictly shrinks the work left, so the loop ends |
| Worklist.WalkStep | outline/outline.go:126-141 | visiting a node, then going on with its next sibling and the updated queue |
| Worklist.WalkAdvance | outline/outline.go:126-141 | the loop invariant: the visited nodes then the remaining walk make up the whole walk |
| Worklist.WalkPop | outline/outline.go:118-124 | at the end of a chain the walk ends on an empty queue, else resumes at the queue's front |
| Worklist.SiblingInside | outline/outline.go:141 | the next sibling of a node inside the walk is inside |
| Worklist.ChildInside | outline/outline.go:136-138 | the first child of a non-stopping node inside the walk is inside |
| Worklist.FirstChildInside | outline/outline.go:116 | the walk starts inside |
| Worklist.WalkInside | outline/outline.go:115-142 | every visited node lies below the start with no stopping node in between |
| Worklist.WalkCovers | outline/outline.go:115-142 | the walk visits every node of its chains and every child of a visited non-stopping node |
| Worklist.InsideIsVisited | outline/outline.go:115-142 | every node below the start with no stopping node in between is visited |
| Worklist.WalkBelowExact | outline/outline.go:115-142 | the walk below a node visits exactly the nodes inside it |
| Worklist.NoVisitBelowStop | outline/outline.go:126-139 | nothing below a stopping node is visited |
| Worklist.LevelledStep | outline/outline.go:122-141 | a visit keeps the queue in nondecreasing depth order, all at least as deep as the current node |
| Worklist.SortedCons | outline/outline.go:122-141 | prefixing a node no deeper than the rest keeps depths sorted |
| Worklist.LevelOrder | outline/outline.go:115-142 | the walk visits nodes in nondecreasing depth |
| Worklist.WalkBelowLevelOrder | outline/outline.go:115-142 | the walk below a parsed node is in level order |
| Worklist.SelectDepthSorted | outline/outline.go:128 | the nodes the walk records keep level order |
| Worklist.WalkFrom | outline/outline.go:215-250 | a walk started on a node itself visits it, then the walk below it unless it stops |
| Bytes.Lit | stackexchange/stackexchange.go:52-68 | the byte slice of an ASCII literal has its characters as bytes |
| Bytes.IndexByte | stackexchange/stackexchange.go:160 | the index found holds the byte |
| Bytes.IndexByteNone | stackexchange/stackexchange.go:160-163 | the search fails exactly when the byte is absent |
| Bytes.IndexByteFirst | stackexchange/stackexchange.go:160 | no earlier position holds the byte |
| Bytes.FirstIndex | stackexchange/stackexchange.go:160 | the first occurrence is the index found |
| Bytes.CompleteLinesAreLines | sitemap/sitemap.go:39 | every line read ends in its newline and holds no other |
| Bytes.LinesStep | sitemap/sitemap.go:39 | the first line read runs up to and including the first newline |
| Bytes.LinesOfConcat | sitemap/sitemap.go:38-45 | newline-terminated lines, then an unterminated tail, read back as those lines |
| Bytes.NextLineEnd | sitemap/sitemap.go:39-44 | the reader reports end of input exactly when no complete line is left |
| Bytes.NextLineFirst | sitemap/sitemap.go:39 | otherwise the line read is the next complete line and reading resumes after it |
| Bytes.ReadLine | robots/robots.go:95-98 | one ReadSlice call: the next complete line, or end of input |
| Bytes.ReadStart | robots/robots.go:85 | nothing is read at the start |
| Bytes.ReadNext | robots/robots.go:95 | each read advances and adds the next complete line |
| Bytes.ReadEnd | robots/robots.go:96-98 | at end of input every complete line has been read |
| Bytes.TrimLeftDrops | sitemap/sitemap.go:46 | the left trim drops exactly the leading white space |
| Bytes.TrimRightDrops | sitemap/sitemap.go:46 | the right trim drops exactly the trailing white space |
| Bytes.TrimSpaceSlice | sitemap/sitemap.go:46 | the trimmed text is a slice of the line that neither starts nor ends with white space |
| Bytes.TrimPadded | sitemap/sitemap.go:46 | trimming text followed by white space gives the text |
| Outline.RegionOf | outline/outline.go:126-139 | the switch order: nav first, then main, sidebar and footer, each only when the earlier tests fail |
| Outline.LastOrSnoc | outline/outline.go:129-134 | a matching node overwrites the field, others leave it |
| Outline.SelectSnoc | outline/outline.go:128 | a matching node is appended, others are not |
| Outline.Classify | outline/outline.go:126-139 | a node that matches no region changes no field |
| Outline.ClassifyAllSnoc | outline/outline.go:117-142 | classifying one more node is one more switch |
| Outline.ClassifyAllNav | outline/outline.go:127-128 | NavNodes gains every nav node, in walk order |
| Outline.ClassifyAllMain | outline/outline.go:129-130 | MainNode ends as the last main node, else unchanged |
| Outline.ClassifyAllSidebar | outline/outline.go:131-132 | SidebarNode ends as the last sidebar node, else unchanged |
| Outline.ClassifyAllFooter | outline/outline.go:133-134 | FooterNode ends as the last footer node, else unchanged |
| Outline.ClassifyAllRegions | outline/outline.go:126-139 | all four fields at once |
| Outline.ScanOutcomes | outline/outline.go:218-254 | success gives the first head and the first body; each error means a missing head or body, or a second head or body seen before both were found; Outline.ScanErrors gives each error as an if-and-only-if |
| Outline.ScanErrors | outline/outline.go:227-253 | "duplicate head" exactly when some walk position holds a second head while head and body were not both found before it and no earlier duplicate occurred; the same for "duplicate body"; "missing head or body" exactly when the walk ends with that prefix condition still holding and one of the two unfound |
| Outline.HeadIsNoBody | outline/outline.go:227-237 | no node is both a head and a body, so the switch takes at most one arm |
| Outline.FoundShift | outline/outline.go:229-237 | after the first node, "found before position i+1" is "found before position i" of the rest of the walk |
| Outline.SecondShift | outline/outline.go:229-235 | a second head or body after the first node is one of the rest of the walk |
| Outline.ReachesShift | outline/outline.go:245-247 | reaching position i+1 without an error or a stop is reaching position i of the rest |
| Outline.StopShift | outline/outline.go:227-253 | the duplicate-at predicates shift the same way past the first node |
| Outline.ScanStopsEarly | outline/outline.go:245-247 | once both are found nothing later is examined |
| Outline.DocWalkExact | outline/outline.go:215-243 | the search visits the document node, then exactly the descendants with no head or body above them |
| Outline.Outline.constructor | outline/outline.go:212 | the zero Outline |
| Outline.Outline.BuildBody | outline/outline.go:109-143 | NavNodes gains the nav nodes of the body walk; main, sidebar and footer become the last of their kind; nothing else changes |
| Outline.Outline.VisitBody | outline/outline.go:126-141 | one switch: the node's region field is updated, and its first child is queued only when it matched no region |
| Outline.Outline.BuildMain | outline/outline.go:156-183 | ArticleNodes gains the articles of the main walk; nothing else changes |
| Outline.Outline.VisitMain | outline/outline.go:168-174 | an article is recorded and not descended into; any other node queues its first child |
| Outline.FindHeadBody | outline/outline.go:215-254 | the loop's outcome is the scan of the document walk |
| Outline.Build | outline/outline.go:204-263 | each scan error is returned; otherwise a fresh outline with the document, the first head and body, the body regions and the articles of the main node |
| Outline.Assemble | outline/outline.go:212-262 | the fields of the outline once head and body are known |
| Outline.RegionsBelowBody | outline/outline.go:109-143 | every node buildBody visits lies strictly below the body |
| Outline.RegionsNotNested | outline/outline.go:126-139 | no visited node lies below a region node |
| Outline.NavNodesExact | outline/outline.go:109-143 | NavNodes is exactly the nav nodes below the body with no region node above them |
| Outline.NavNodesLevelOrder | outline/outline.go:115-142 | NavNodes come in nondecreasing depth |
| Outline.ArticleNodesExact | outline/outline.go:156-177 | ArticleNodes is exactly the articles below main with no article above them |
| Outline.ArticleClassIsWhole | outline/outline.go:148-152 | class "post x" is not an article: the whole attribute is compared |
| Outline.RoleMainIsMain | outline/outline.go:80-82 | role="main" makes any node main, whatever its tag |
| Outline.IsNav | outline/outline.go:51-62 | true exactly for a nav element, or a div whose id is navigation, nav or menu |
| Outline.IsMain | outline/outline.go:64-84 | true exactly for a main or article element, a div whose id is main or content, or any node whose role is main |
| Outline.IsSidebar | outline/outline.go:86-94 | true exactly for a div whose id is sidebar |
| Outline.IsFooter | outline/outline.go:96-107 | true exactly for a footer element or a div whose id is footer |
| Outline.IsArticle | outline/outline.go:144-155 | true exactly for an article element or a div whose whole class attribute is article or post |
| Extract.Document.constructor | outline/extract.go:100 | the zero Document |
| Extract.Document.ExtractHead | outline/extract.go:108-140 | the head fields are those of reading the head's children in order |
| Extract.Document.ReadHeadNode | outline/extract.go:116-136 | one child read by the switch |
| Extract.ReadHeadChild | outline/extract.go:116-136 | only a matching meta changes description or author, only a title with a child changes the title |
| Extract.ReadHeadSnoc | outline/extract.go:110-138 | reading one more child is one more switch |
| Extract.ReadHeadDescription | outline/extract.go:120-126 | the description is the content of the last description meta, else unchanged |
| Extract.ReadHeadAuthor | outline/extract.go:120-128 | the author is the content of the last author meta, else unchanged |
| Extract.ReadHeadTitle | outline/extract.go:132-135 | the title is the text of the first child of the last title that has one |
| Extract.MetaNameByAttributeOrder | outline/extract.go:123 | an http-equiv attribute listed before name decides the meta's name |
| Extract.MakeAnchor | outline/extract.go:157-172 | the url is unset for an empty href and otherwise the parsed href |
| Extract.Document.ReadAnchor | outline/extract.go:157-172 | none exactly for a non-empty href that fails to parse, else the anchor's value |
| Extract.Document.VisitNav | outline/extract.go:155-178 | one visit: an anchor yields its value or a bad href; any other node queues its first child |
| Extract.Document.ExtractNavAsWritten | outline/extract.go:142-182 | the loop hangs exactly when the walk meets a bad href; otherwise Nav gains the walk's anchors |
| Extract.Document.ExtractNav | outline/extract.go:142-182 | Nav gains the anchors of the nav walk, in order (bad hrefs dropped) |
| Extract.HarvestSnoc | outline/extract.go:173 | one more visited node appends its anchor when it yields one |
| Extract.NoBadHrefMeans | outline/extract.go:159-163 | the loop's no-bad-href invariant means no visited node has a bad href |
| Extract.NavStep | outline/extract.go:145-181 | one visit advances the walk, shrinks the work left and extends the invariant |
| Extract.HarvestGrows | outline/extract.go:173 | appending a visit's anchors keeps Nav equal to the harvest so far |
| Extract.HarvestIsMapSelect | outline/extract.go:155-173 | the harvest is the anchor value of each kept node, in walk order |
| Extract.NavAnchorsExact | outline/extract.go:142-182 | the anchors harvested come from exactly the parseable anchors below nav that no anchor encloses |
| Extract.NestedAnchorsSkipped | outline/extract.go:155-178 | no visited node lies below a visited anchor |
| Extract.NavAnchorsLevelOrder | outline/extract.go:143-181 | anchors are harvested in level order |
| Extract.BadHrefHangs | outline/extract.go:159-163 | `<nav><a href="x">` with a parser that rejects "x" meets a bad href |
| Extract.NoBadHrefKeepsAll | outline/extract.go:155-173 | without bad hrefs both loops keep every visited anchor |
| Extract.ToText | outline/extract.go:51-61 | the text is PlainText's, the text of the parsed subtree |
| Extract.Extract | outline/extract.go:92-106 | nothing unless document, head, body and main are set; otherwise the head fields and the anchors of every nav node in order, each nav walk being the corrected one (see Findings) |
| Extract.ExtractAsWritten | outline/extract.go:92-106 | the source as written: nothing unless the four nodes are set; it hangs exactly when some nav node's walk meets a non-empty href that fails to parse; otherwise the head fields and the anchors of every nav node in order |
| Extract.ReadHead | outline/extract.go:108-140 | a field is left unchanged when no child of the head can set it |
| Extract.Harvest | outline/extract.go:155-173 | at most one anchor per visited node, none when no visited node is an anchor |
| Extract.NavAnchors | outline/extract.go:142-182 | at most one anchor per node of the nav walk, none for a nav node without children |
| Robots.Txt.constructor | robots/robots.go:80-83 | empty maps and no sitemaps |
| Robots.Txt.Allowed | robots/robots.go:38-66 | the decision over the "*" entries followed by the agent's, disallow loop then allow loop |
| Robots.Txt.Delay | robots/robots.go:71-76 | the agent's own delay, else the "*" delay, else 0; Robots.DelayOfParse ties these to the Crawl-delay lines of the file |
| Robots.DelayOfParse | robots/robots.go:71-120 | after parsing, the delay for an agent is the value of the last parseable Crawl-delay line in a group of that agent; failing that, of the last one in a "*" group; failing that, 0 |
| Robots.DelaysFromLines | robots/robots.go:105-120 | an agent has a delay exactly when some Crawl-delay line with a parseable value sits under a User-agent line naming it (or under none, for the empty agent), and the delay is the last such value |
| Robots.DelayDirective | robots/robots.go:116-120 | a Crawl-delay line whose value parses sets the current agent's delay; any other line leaves the delays alone |
| Robots.DelayStep | robots/robots.go:94-125 | the delays after one more line are those of one more switch under the agent of the last User-agent line so far |
| Robots.DelayForInit | robots/robots.go:105-120 | adding a line keeps every earlier delay line for an agent and adds the new one exactly when it is a parseable Crawl-delay line under that agent |
| Robots.DelaysSnoc | robots/robots.go:116-120 | the delay characterisation extends by one line |
| Robots.DelaysSnocSet | robots/robots.go:116-120 | the case where the new line sets the delay |
| Robots.DelaysSnocKeep | robots/robots.go:116-120 | the case where the new line leaves the delay |
| Robots.DeniedIffRecorded | robots/robots.go:43-56 | the disallow loop denies exactly when it holds a disallowed path |
| Robots.NoMatchAllowed | robots/robots.go:38-66 | with no matching disallow entry the path is allowed |
| Robots.NoMatchOpen | robots/robots.go:43-56 | non-matching disallow entries leave the state as it started |
| Robots.DisallowFoldAppend | robots/robots.go:43 | the "*" entries then the agent's entries are one loop run on from the other |
| Robots.DisallowFold | robots/robots.go:43-56 | the disallowed path ends as before, empty, or a matching entry; the state is allowed only when unchanged or reset; it is denied only with a recorded path or as it started |
| Robots.AllowFold | robots/robots.go:57-63 | an allowed state stays allowed; a denial survives only when no entry is a prefix of the path longer than the disallowed path |
| Robots.Decide | robots/robots.go:38-66 | a denial needs a matching disallow entry, and every allow entry that is a prefix of the path is no longer than the recorded disallowed path |
| Robots.DisallowFoldNext | robots/robots.go:43-56 | the disallow loop after i+1 entries is one more step from the loop after i |
| Robots.AllowFoldNext | robots/robots.go:57-63 | the allow loop after i+1 entries is one more step from the loop after i |
| Robots.Directive | robots/robots.go:105-125 | only a User-agent line changes the agent; sitemaps only grow, by at most one; other agents' allow, disallow and delay entries are untouched; a line with none of the five prefixes changes nothing |
| Robots.ResetByEmpty | robots/robots.go:44-48 | an empty entry resets the decision: nothing before it counts |
| Robots.ShortestMatch | robots/robots.go:49-54 | without empty entries the recorded path is a matching entry, no longer than any other, and none when nothing matches |
| Robots.RecordedIsEntry | robots/robots.go:49-54 | the recorded path is always a matching entry, or none |
| Robots.AllowKeeps | robots/robots.go:57-63 | the allow loop only turns the verdict to true, exactly on a prefix longer than the disallowed path |
| Robots.AllowWins | robots/robots.go:57-63 | an allow prefix longer than every matching disallow entry allows |
| Robots.Append | robots/robots.go:113 | the value is appended under one key, every other key is unchanged |
| Robots.DisallowValue | robots/robots.go:109-112 | the value skips one byte after the colon, or is empty |
| Robots.DirectiveFields | robots/robots.go:105-125 | each line changes only the field of the first prefix it has |
| Robots.Parse | robots/robots.go:79-129 | the rules are those of applying the complete lines in order |
| Robots.SitemapIsNoOther | robots/robots.go:105-122 | a sitemap line has none of the other prefixes |
| Robots.DisallowIsNoAgent | robots/robots.go:106-108 | a disallow line is no user-agent line |
| Robots.SitemapsInOrder | robots/robots.go:121-122 | Sitemaps lists every sitemap line's value in file order |
| Robots.CurrentAgent | robots/robots.go:106-107 | the current agent is the one of the last user-agent line, else "" |
| Robots.AgentBeforeAny | robots/robots.go:86 | before any user-agent line the agent is "" |
| Robots.DisallowBeforeAny | robots/robots.go:108-113 | disallow lines before any user-agent line are filed under "" in order |
| Robots.RulesBeforeAny | robots/robots.go:113-120 | before any user-agent line, only "" gets allow or delay rules |
| Robots.DisallowSkipsOneByte | robots/robots.go:110-111 | "Disallow:/private" records "private" |
| Robots.BadDelayIgnored | robots/robots.go:116-120 | a delay that does not parse changes nothing |
| Robots.TailIgnored | robots/robots.go:94-98 | a last line without newline is never read |
| Sitemap.Sitemap.constructor | sitemap/sitemap.go:36 | no locations, no sitemaps |
| Sitemap.Sitemap.ScanLine | sitemap/sitemap.go:46-59 | a line too short for its slice is an error; otherwise a location line or a sitemap line appends its value |
| Sitemap.Parse | sitemap/sitemap.go:35-63 | an error exactly when a complete line is too short for its slice; otherwise the locations and sitemaps of the complete lines in order |
| Sitemap.NoPanicSnoc | sitemap/sitemap.go:46-59 | the loop's no-panic invariant extends by one line |
| Sitemap.PanicFound | sitemap/sitemap.go:51 | one short line makes the whole scan an error |
| Sitemap.LocIsNoChild | sitemap/sitemap.go:47-55 | no line is both a location line and a sitemap line |
| Sitemap.ParseRender | sitemap/sitemap.go:35-63 | rendering pages and sitemaps one per line and scanning gives them back, in order |
| Sitemap.ScanRendered | sitemap/sitemap.go:46-59 | the scan of rendered lines is the pages and sitemaps rendered |
| Sitemap.RenderedPages | sitemap/sitemap.go:47-54 | the locations read back are the pages' URLs |
| Sitemap.RenderedChildren | sitemap/sitemap.go:55-59 | the sitemaps read back are the child sitemaps' URLs |
| Sitemap.RenderedLine | sitemap/sitemap.go:46-59 | a rendered entry is one line that reads back as that entry |
| Sitemap.PageLine | sitemap/sitemap.go:47-54 | a rendered page is a location line with its URL |
| Sitemap.ChildLine | sitemap/sitemap.go:55-59 | a rendered child is a sitemap line with its URL |
| Sitemap.TagLine | sitemap/sitemap.go:46 | trimming a tagged line drops only the newline |
| Sitemap.ClosingTagNotChecked | sitemap/sitemap.go:51 | any six closing bytes are cut unread |
| Sitemap.ShortLocationFails | sitemap/sitemap.go:51 | `<loc>` alone on a line is out of range |
| Sitemap.Scan | sitemap/sitemap.go:38-61 | a successful scan yields at most one entry per line |
| Sitemap.LocOf | sitemap/sitemap.go:46-53 | the URL is a contiguous slice of the line |
| Sitemap.ChildOf | sitemap/sitemap.go:55-58 | the sitemap URL is a contiguous slice of the line |
| Sitemap.SliceOfTrimmed | sitemap/sitemap.go:46-58 | cutting a prefix and a suffix off the trimmed line leaves a slice of the line |
| StackExchange.ToInt | stackexchange/stackexchange.go:88-109 | the loop's result is the parse of an optional '-' and digits |
| StackExchange.ParseInt | stackexchange/stackexchange.go:88-109 | empty input is a syntax error; a negative result needs a leading '-'; "-" alone is 0; without a leading '-' a non-digit is an error |
| StackExchange.SplitTags | stackexchange/stackexchange.go:216-220 | the tags are as many as the pieces of the split, at least one |
| StackExchange.TrimLast | stackexchange/stackexchange.go:219-220 | cutting the last piece keeps the number of pieces |
| StackExchange.DigitsAreAscii | stackexchange/stackexchange.go:99-101 | with wrapping byte arithmetic exactly '0' to '9' pass |
| StackExchange.LoneMinus | stackexchange/stackexchange.go:93-108 | "-" parses as 0 |
| StackExchange.PlusRejected | stackexchange/stackexchange.go:93-101 | a leading '+' is a syntax error |
| StackExchange.DecimalDigits | stackexchange/stackexchange.go:97-104 | a decimal rendering is non-empty and all digits |
| StackExchange.DigitsOfDecimal | stackexchange/stackexchange.go:97-104 | the digit loop inverts decimal rendering |
| StackExchange.ParseDecimal | stackexchange/stackexchange.go:88-109 | parsing the decimal rendering of any integer gives it back |
| StackExchange.Clone | stackexchange/stackexchange.go:111-115 | a fresh buffer with the same bytes |
| StackExchange.NewFilterAsWritten | stackexchange/stackexchange.go:124-126 | any post type, no accepted answer needed, minimum score the largest int |
| StackExchange.NewFilter | stackexchange/stackexchange.go:124-126 | the corrected default: minimum score the smallest int |
| StackExchange.Field | stackexchange/stackexchange.go:170-237 | an attribute that keeps the row never brings in a post type or score the filter rejects |
| StackExchange.Fields | stackexchange/stackexchange.go:159-244 | a kept row passes the filter's type, score and accepted-answer tests |
| StackExchange.RowOf | stackexchange/stackexchange.go:157-244 | every kept post passes the filter |
| StackExchange.ApplyField | stackexchange/stackexchange.go:170-237 | the switch on one attribute, numbers parsed by ToInt |
| StackExchange.ScanRow | stackexchange/stackexchange.go:157-244 | the inner loop's outcome is the row's outcome |
| StackExchange.FindSep | stackexchange/stackexchange.go:217 | a position found holds the separator |
| StackExchange.Split | stackexchange/stackexchange.go:217 | splitting gives at least one piece |
| StackExchange.TrimFirst | stackexchange/stackexchange.go:218 | trimming keeps the number of pieces |
| StackExchange.TagBytes | stackexchange/stackexchange.go:217 | the separator is a closing entity then an opening entity |
| StackExchange.FindSepNone | stackexchange/stackexchange.go:217 | no separator is found where none starts |
| StackExchange.FindSepAt | stackexchange/stackexchange.go:217 | the first separator after a plain prefix is found at its end |
| StackExchange.Pieces | stackexchange/stackexchange.go:217-220 | the pieces of joined tags are the tags, the last one still closed |
| StackExchange.SplitLast | stackexchange/stackexchange.go:217 | the last piece holds no separator |
| StackExchange.SplitCons | stackexchange/stackexchange.go:217 | a piece then the separator splits off that piece |
| StackExchange.SplitJoined | stackexchange/stackexchange.go:217 | splitting joined tags gives the pieces |
| StackExchange.OpenDropped | stackexchange/stackexchange.go:218 | the first piece loses its opening entity |
| StackExchange.CloseDropped | stackexchange/stackexchange.go:219-220 | the last piece loses its closing entity |
| StackExchange.TagsRoundTrip | stackexchange/stackexchange.go:216-223 | splitting the Tags value of plain tags gives the tags back |
| StackExchange.NoAttributes | stackexchange/stackexchange.go:157-163 | a row without quotes yields an empty post unless an accepted answer is required |
| StackExchange.ClosingLine | stackexchange/stackexchange.go:157-163 | the dump's closing line is read as an empty row |
| StackExchange.OneAttr | stackexchange/stackexchange.go:160-168 | the two quote searches cut out the name and the value |
| StackExchange.FieldsStep | stackexchange/stackexchange.go:159-238 | one written attribute is applied, then the scan goes on after it |
| StackExchange.FieldsOfRendered | stackexchange/stackexchange.go:159-238 | scanning written attributes applies them in order |
| StackExchange.RowOfRendered | stackexchange/stackexchange.go:157-244 | scanning a written row applies its attributes in order |
| StackExchange.LabelsDiffer | stackexchange/stackexchange.go:54-58 | the score label differs from the other numeric labels |
| StackExchange.ScoreDecides | stackexchange/stackexchange.go:200-208 | a score below the minimum skips the row, any other is stored |
| StackExchange.DefaultSkipsScored | stackexchange/stackexchange.go:124-126 | the default filter as written skips every row whose score is below the largest int |
| StackExchange.DefaultKeepsInRange | stackexchange/stackexchange.go:124-126 | the corrected default skips only on a score below the smallest int |
| StackExchange.DefaultKeepsScored | stackexchange/stackexchange.go:124-126 | the corrected default keeps a row with an in-range score |
| StackExchange.SkipHeader | stackexchange/stackexchange.go:134-135 | the first two lines are skipped, whatever they hold |
| StackExchange.Posts | stackexchange/stackexchange.go:128-265 | the posts sent and how the scan ended are those of the dump's rows |
| StackExchange.Stream | stackexchange/stackexchange.go:136-265 | at most one post per row |
| StackExchange.AfterNil | stackexchange/stackexchange.go:136-152 | no more rows adds no post and ends the scan cleanly |
| StackExchange.AfterCons | stackexchange/stackexchange.go:136-258 | one more row adds its post, is skipped, or ends the scan with what was sent so far |
| StackExchange.StreamCons | stackexchange/stackexchange.go:136-258 | one row is kept, skipped, or ends the scan |
| StackExchange.StreamAppend | stackexchange/stackexchange.go:136-258 | the scan stops at the first failing row; after rows that all succeed it goes on |
| StackExchange.StreamDone | stackexchange/stackexchange.go:151-155 | the scan ends cleanly exactly when every row neither stops nor panics |
| StackExchange.StreamClean | stackexchange/stackexchange.go:240-257 | then the posts are those of the kept rows, in order |
| StackExchange.StreamAdmits | stackexchange/stackexchange.go:183-244 | every post sent passes the filter |

## Left out

- Parsing HTML into a tree (`html.Parse`, `Render`) calls an external parser and is not part of this model. `Build` and the node API take the parsed `Tree`. Parse errors and a nil document are not modelled.
- `Html.NextElement`: the source dereferences the receiver without a nil check and panics on nil. The model requires a node.
- A nil `*Node` and a Node wrapping nil are one value, `None`. They differ only where the source panics.
- `url.Parse` is the parameter `parse` of the nav extractor, and `strconv.Atoi` is the parameter `atoi` of the robots parser. Their own behaviour is not modelled.
- `Document.Language` is never assigned by the source and is not modelled. `Document.Type` stays `UnknownType`.
- `extractMain` is never called. `dump` does nothing.
- Buffered reading becomes a function over the whole input text. The reader's buffer-full and read errors are not modelled. A final line without a newline is never read, as in the source.
- `Posts` runs in a goroutine and sends posts and errors over channels. The model returns the posts as a sequence, plus how the scan ended.
- `must.OK` panics are a `Panicked` end. Slice expressions out of range are a `Panic` row or a `SliceOutOfRange` error.
- The `Post` fields that the scanner never sets (ParentID, CommentCount, FavoriteCount, the dates) are not modelled. `Body` and `Title` are copies of the value bytes.
- `LoadDB`, `StoreDB` (JSON) and `MustParse` are not modelled.
- `Filter.MinAnwserCount` is never read by the source. It is carried along and never tested.
- `StackExchange.ToInt`: does not model the 64-bit wrap-around of `n*10 + b` on values of 19 or more digits.
- `StackExchange.ParseInt`: the same; the value is the unbounded one.
- `StackExchange.RowOf`: its filter guarantee reads a zero post type or score as a field the row does not carry. A row whose `Score="0"` is below the minimum is skipped by the source, and the contract does not say so. `StackExchange.ScoreDecides` states that case.
- `u.Clone` of a tag is a copy of its bytes. `Clone` is modelled on arrays, and the tags themselves are values.
- `Bytes.TrimSpace` models ASCII white space only. `bytes.TrimSpace` also trims Unicode spaces in UTF-8.
- `Extract.Extract`: composes the corrected nav walk of the first Findings row, so it always returns. The source as written never returns once a nav walk meets a non-empty href that fails to parse (outline/extract.go:159-163). `Extract.ExtractAsWritten` models that behaviour: it reports the hang and says exactly when it happens.
- `Outline.FindHeadBody` and `Outline.Assemble` are the two halves of `Build`, split at the end of the head and body search.

## Findings

| source | as written | input that shows it | evidently intended | confidence | as-written member | corrected member |
|---|---|---|---|---|---|---|
| outline/extract.go:159-163 | `continue` on an href that fails to parse skips `n = n.NextSibling()`, so the loop visits the same anchor forever | `<nav><a href="x"></a></nav>` with a URL parser that rejects "x" | skip that anchor and go on with the walk | not executed | Extract.Document.ExtractNavAsWritten, Extract.ExtractAsWritten, Extract.BadHrefHangs | Extract.Document.ExtractNav, Extract.NavAnchorsExact |
| stackexchange/stackexchange.go:124-126 | `NewFilter` sets `MinScore` to the largest int, so every row that carries a Score below it is skipped | any row with `Score="5"` under `NewFilter()` | a default that keeps every score, minimum the smallest int | not executed | StackExchange.NewFilterAsWritten, StackExchange.DefaultSkipsScored | StackExchange.NewFilter, StackExchange.DefaultKeepsInRange, StackExchange.DefaultKeepsScored |
