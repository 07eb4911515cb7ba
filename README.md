# Log-Injector services, modelled in Dafny

Log-Injector is an IntelliJ plugin that adds log calls to Kotlin and Java code and takes them out again. This project models three parts of it:

- **The log strategies.** There are three of them: `println`, Timber and Napier. Each one renders a log text from a tag and a message, in Kotlin and in Java. It also lists the patterns that mark an earlier log for removal, and names the import it needs. Source: `LogStrategy.kt`.
- **The insertion and removal service.** Source: `LogInserterService.kt`.
  - It logs every function and method on entry.
  - It logs every assignment right after the statement that holds it.
  - It skips a node that already carries its log.
  - It deletes earlier logs from a scope.
- **The settings component.** Source: `LoggingSettings.kt`.

The IDE's PSI tree becomes a value datatype, `Psi.Node`:

- A node is a leaf or an inner node.
- An inner node has a kind and a sequence of children.
- A node's text is the concatenation of its leaves.
- A node is addressed by its path of child indices from the file root.

The edited file is a class, `LogInserterService.SourceFile`. It has a language and a mutable `root`. The service methods change `root` in place, as `addAfter` and `delete` do in the plugin. Each method is proved equal to a specification function of the old tree: `MethodStep`, `AssignmentStep`, `Run` or `Removed`. The properties are proved about those functions, in four modules:

- `InsertionProperties`: what a log adds, where it goes, that a node is not logged twice, and that insertion only adds text.
- `RemovalProperties`: exactly which nodes are deleted, that removal only deletes text, that nothing outside the scope changes, that every node without the tag, none of whose enclosing nodes is deleted, keeps its text, and that every inserted log can be removed.
- `MethodPass`: a second whole function or method pass changes nothing, when neither the tag nor any function name holds a `{`.
- `Snapshot`: inserting a log keeps the pre-order list of functions and assignments, each entry moved to its shifted path.

`findChildrenOfType` returns its collection before the loop starts, so a pass works on a snapshot. The model takes that snapshot as pre-order ranks among the file's nodes of the collected class. The model's inserted log node holds no node of any collected class (`LogInserterService.InsertedNodesCount`). Rank `r` therefore names the same function or assignment before and after every insertion. The removal pass collects its set up front and then deletes every member. The model deletes that set in one step (`Psi.DeleteAll`). A node inside a subtree that is already gone is removed with it.

The log node that the host factories build from a log text is kept opaque:

- Kotlin: a call expression with one leaf, for every strategy.
- Java: an expression statement with one leaf, for every strategy.

The PSI factories, the project and the IDE are not modelled. The tree, the tag, the framework and the scope are parameters.

## Model

Source paths are relative to the repository root.

| member | source | states |
|---|---|---|
| Settings.FrameworkConstants | src/main/kotlin/com/github/kiolk/loggingplugin/settings/LoggingSettings.kt:10-13 | The framework enumeration has exactly PRINTLN and TIMBER, displayed as "System Println" and "Timber". |
| Settings.State.constructor | src/main/kotlin/com/github/kiolk/loggingplugin/settings/LoggingSettings.kt:15-20 | A default `State` tracks methods and assignments, has tag "Myfancy log" and uses PRINTLN. |
| Settings.State.Of | src/main/kotlin/com/github/kiolk/loggingplugin/settings/LoggingSettings.kt:15-20 | A `State` built from four values holds exactly those values. |
| Settings.LoggingSettings.constructor | src/main/kotlin/com/github/kiolk/loggingplugin/settings/LoggingSettings.kt:22 | A fresh component holds a fresh default state. |
| Settings.LoggingSettings.GetState | src/main/kotlin/com/github/kiolk/loggingplugin/settings/LoggingSettings.kt:24 | `getState` returns the stored state object itself. |
| Settings.LoggingSettings.LoadState | src/main/kotlin/com/github/kiolk/loggingplugin/settings/LoggingSettings.kt:25-27 | `loadState` replaces the stored state object, and only that field changes. |
| Settings.FreshThenLoad | src/main/kotlin/com/github/kiolk/loggingplugin/settings/LoggingSettings.kt:22-27 | A fresh component reports the defaults. After `loadState` of a record holding `v`, `getState` reports `v`. |
| LogStrategies.CreateKotlinLog | src/main/kotlin/com/github/kiolk/loggingplugin/services/LogStrategy.kt:28-32 | Every strategy's Kotlin log contains both the tag and the message, and is longer than the two together. |
| LogStrategies.CreateJavaLog | src/main/kotlin/com/github/kiolk/loggingplugin/services/LogStrategy.kt:34-38 | Every strategy's Java log contains both the tag and the message, and is longer than the two together. |
| LogStrategies.JavaLogExtendsKotlinLog | src/main/kotlin/com/github/kiolk/loggingplugin/services/LogStrategy.kt:27-85 | Timber and Napier render the Java log as the Kotlin log plus `;`. Println renders it as `System.out.` + the Kotlin log + `;`. |
| LogStrategies.GetRemovalPatterns | src/main/kotlin/com/github/kiolk/loggingplugin/services/LogStrategy.kt:40 | The pattern list ends with the tag itself, and every pattern contains the tag. |
| LogStrategies.MatchesPatternsIffContainsTag | src/main/kotlin/com/github/kiolk/loggingplugin/services/LogStrategy.kt:60 | For every strategy, a text matches some removal pattern if and only if it contains the tag. |
| LogStrategies.RenderedLogMatchesOwnPatterns | src/main/kotlin/com/github/kiolk/loggingplugin/services/LogStrategy.kt:27-85 | Every log a strategy renders, in either language, is matched by that strategy's own removal patterns. |
| LogStrategies.GetKotlinImport | src/main/kotlin/com/github/kiolk/loggingplugin/services/LogStrategy.kt:42 | Only the println strategy needs no Kotlin import. |
| LogStrategies.GetJavaImport | src/main/kotlin/com/github/kiolk/loggingplugin/services/LogStrategy.kt:64 | Only Timber needs a Java import. |
| LogStrategies.ImportNames | src/main/kotlin/com/github/kiolk/loggingplugin/services/LogStrategy.kt:62-64 | Timber imports `timber.log.Timber` in both languages. Napier imports `io.github.aakira.napier.Napier` in Kotlin. |
| LogStrategies.GetStrategy | src/main/kotlin/com/github/kiolk/loggingplugin/services/LogStrategy.kt:88-94 | PRINTLN gives exactly the println strategy, and TIMBER gives exactly Timber. |
| Psi.AllTargetsExactly | src/main/kotlin/com/github/kiolk/loggingplugin/services/LogInserterService.kt:17-18 | The pre-order list of nodes of a class holds exactly the valid paths whose node is of that class. Kotlin assignments are binary expressions with one of the six assignment operators. |
| Psi.FindAllAtSound | src/main/kotlin/com/github/kiolk/loggingplugin/services/LogInserterService.kt:17 | Every path `findChildrenOfType` lists from a node leads to a node of the class at or below that node. |
| Psi.InsertChildrenFrame | src/main/kotlin/com/github/kiolk/loggingplugin/services/LogInserterService.kt:47-48 | `addAfter` keeps every node that is not on the way to the parent it inserts into: each is found, unchanged, at its path shifted past the new children. |
| Snapshot.InsertKeepsTargets | src/main/kotlin/com/github/kiolk/loggingplugin/services/LogInserterService.kt:36-37 | Inserting children that hold no node of the collected class keeps the file's pre-order list of that class, each entry moved to its shifted path, so the snapshot taken before the loop names the same nodes after an insertion. |
| Psi.ScopeRanks | src/main/kotlin/com/github/kiolk/loggingplugin/services/LogInserterService.kt:36 | The snapshot of a scope is the increasing list of exactly those ranks whose node lies strictly inside the scope. |
| Psi.ClimbWhile | src/main/kotlin/com/github/kiolk/loggingplugin/services/LogInserterService.kt:112-115 | The climb ends at an ancestor-or-self whose parent fails the test, or at the root. Every node on the way has a parent that passes it. |
| RemovalProperties.ScopeTargetsExactly | src/main/kotlin/com/github/kiolk/loggingplugin/services/LogInserterService.kt:91 | A scope's candidates are exactly the nodes of the class strictly inside the scope. |
| LogInserterService.KotlinParameterTexts | src/main/kotlin/com/github/kiolk/loggingplugin/services/LogInserterService.kt:39 | One `p=${p}` per Kotlin parameter, in declaration order. |
| LogInserterService.JavaParameterTexts | src/main/kotlin/com/github/kiolk/loggingplugin/services/LogInserterService.kt:58 | One `p=" + p + "` per Java parameter, in declaration order. |
| InsertionProperties.KotlinMethodMessageMentions | src/main/kotlin/com/github/kiolk/loggingplugin/services/LogInserterService.kt:39-40 | A Kotlin function message starts with `name(` and ends with `)`. It contains `p=${p}` for every parameter. A missing name prints as `null`. |
| InsertionProperties.JavaMethodMessageMentions | src/main/kotlin/com/github/kiolk/loggingplugin/services/LogInserterService.kt:58-59 | A Java method message starts with `name(` and ends with `)`. It contains `p=" + p + "` for every parameter. |
| InsertionProperties.KotlinMethodMessageScenario | src/test/kotlin/com/github/kiolk/loggingplugin/services/LogInserterServiceTest.kt:65-73 | Function `test` with parameter `param` gets the message `test(param=${param})`. |
| InsertionProperties.JavaAssignmentPrintlnText | src/main/kotlin/com/github/kiolk/loggingplugin/services/LogInserterService.kt:75-77 | The println Java assignment log is exactly `System.out.println("tag: v assigned new value: " + v");`, with the doubled closing quote. |
| InsertionProperties.MethodLogMentions | src/main/kotlin/com/github/kiolk/loggingplugin/services/LogInserterService.kt:40-43 | A function's log text contains the tag and the name that the skip check looks for. |
| LogInserterService.MethodStepFrame | src/main/kotlin/com/github/kiolk/loggingplugin/services/LogInserterService.kt:44-48 | A function that needs a log gets its log nodes right after the first `{` of its body: the body's old children keep their order around them, with the log nodes between the `{` and the child that followed it. Every node not on the way down to the body is found unchanged at its shifted path, so nothing else in the file changes. |
| InsertionProperties.MethodStepEffect | src/main/kotlin/com/github/kiolk/loggingplugin/services/LogInserterService.kt:37-67 | A function without a body, with a body that already mentions both the tag and the name, or with no `{` is left unchanged. Otherwise the log text is spliced into the file text. The tree changes exactly when a log is needed. |
| InsertionProperties.MethodStepIdempotent | src/main/kotlin/com/github/kiolk/loggingplugin/services/LogInserterService.kt:43 | Visiting a function again right after it got its log changes nothing. |
| MethodPass.StepSettles | src/main/kotlin/com/github/kiolk/loggingplugin/services/LogInserterService.kt:36-48 | One function step keeps the number of functions, keeps each one inside or outside the scope, keeps every function that needs no log in that state, and leaves the visited function needing no log. |
| MethodPass.RunRanksSettles | src/main/kotlin/com/github/kiolk/loggingplugin/services/LogInserterService.kt:36-49 | Visiting the snapshot in turn leaves every visited function, and every function that needed no log before, needing no log, and keeps the scope membership of every function. |
| MethodPass.RunMethodsIdempotent | src/main/kotlin/com/github/kiolk/loggingplugin/services/LogInserterService.kt:33-68 | A second Kotlin or Java method pass over the same scope right after the first changes nothing. |
| InsertionProperties.MethodStepOnlyAdds | src/main/kotlin/com/github/kiolk/loggingplugin/services/LogInserterService.kt:47-48 | The old file text is a subsequence of the new one. |
| InsertionProperties.AssignmentLogMentions | src/main/kotlin/com/github/kiolk/loggingplugin/services/LogInserterService.kt:22-24 | An assignment log contains the tag and the assigned variable's text. |
| LogInserterService.IsLogAlreadyPresent | src/main/kotlin/com/github/kiolk/loggingplugin/services/LogInserterService.kt:111-123 | The method's climb and sibling scan give exactly the specified answer: climb to the statement in a block, skip whitespace and comments, then test whether the next text, or "" when there is none, contains the tag and the variable. |
| LogInserterService.Climb | src/main/kotlin/com/github/kiolk/loggingplugin/services/LogInserterService.kt:99-101 | The `while` loop reaches exactly the ancestor that `Psi.ClimbWhile` specifies. |
| LogInserterService.InsertAfterStatement | src/main/kotlin/com/github/kiolk/loggingplugin/services/LogInserterService.kt:125-138 | The file becomes the result of `InsertedAfterStatement` on the old tree. |
| InsertionProperties.InsertedAfterStatementText | src/main/kotlin/com/github/kiolk/loggingplugin/services/LogInserterService.kt:131-137 | In a Kotlin block with a factory, a newline and then the new text are spliced in right after the enclosing statement's text. In a Java code block the new text alone is spliced in. Anywhere else the tree is unchanged. |
| InsertionProperties.AssignmentStepEffect | src/main/kotlin/com/github/kiolk/loggingplugin/services/LogInserterService.kt:20-30 | An assignment without a left side, one already followed by its log, or one with no statement slot is left unchanged. Otherwise the log text is spliced in after its statement. The tree changes exactly then. |
| InsertionProperties.InsertedLogIsFound | src/main/kotlin/com/github/kiolk/loggingplugin/services/LogInserterService.kt:117-122 | After an assignment gets its log, the assignment node is unchanged and `isLogAlreadyPresent` finds the log. |
| InsertionProperties.AssignmentStepIdempotent | src/test/kotlin/com/github/kiolk/loggingplugin/services/LogInserterServiceTest.kt:43-60 | Visiting an assignment again right after it got its log changes nothing. |
| InsertionProperties.AssignmentStepOnlyAdds | src/main/kotlin/com/github/kiolk/loggingplugin/services/LogInserterService.kt:132-137 | The old file text is a subsequence of the new one. |
| LogInserterService.StepKeepsCount | src/main/kotlin/com/github/kiolk/loggingplugin/services/LogInserterService.kt:28-29 | Inserting a log keeps the number of functions, methods and assignments, so the snapshot ranks stay valid. |
| InsertionProperties.StepEffect | src/main/kotlin/com/github/kiolk/loggingplugin/services/LogInserterService.kt:20-30 | One candidate's step only adds text. It changes the tree exactly when the candidate needs a log, and then the text grows. |
| InsertionProperties.RunRanksEffect | src/main/kotlin/com/github/kiolk/loggingplugin/services/LogInserterService.kt:37-49 | Visiting the candidates in turn only adds text. The tree is unchanged when no candidate needs a log, and it grows otherwise. |
| InsertionProperties.RunEffect | src/main/kotlin/com/github/kiolk/loggingplugin/services/LogInserterService.kt:14-84 | A whole pass over a scope only adds text. It changes the file exactly when some candidate in the scope needs a log. |
| LogInserterService.LogKotlinFunction | src/main/kotlin/com/github/kiolk/loggingplugin/services/LogInserterService.kt:37-49 | The loop body for one Kotlin function leaves the file as `MethodStep` specifies. |
| LogInserterService.LogJavaMethod | src/main/kotlin/com/github/kiolk/loggingplugin/services/LogInserterService.kt:56-67 | The loop body for one Java method leaves the file as `MethodStep` specifies. |
| LogInserterService.LogKotlinAssignment | src/main/kotlin/com/github/kiolk/loggingplugin/services/LogInserterService.kt:20-30 | The loop body for one Kotlin assignment leaves the file as `AssignmentStep` specifies. |
| LogInserterService.LogJavaAssignment | src/main/kotlin/com/github/kiolk/loggingplugin/services/LogInserterService.kt:74-83 | The loop body for one Java assignment leaves the file as `AssignmentStep` specifies. |
| LogInserterService.InsertKotlinAssignmentLogs | src/main/kotlin/com/github/kiolk/loggingplugin/services/LogInserterService.kt:14-31 | The loop over the snapshot leaves the file as `Run` specifies, with the strategy of the given framework (PRINTLN by default). |
| LogInserterService.InsertKotlinMethodLogs | src/main/kotlin/com/github/kiolk/loggingplugin/services/LogInserterService.kt:33-50 | The loop over the snapshot leaves the file as `Run` specifies. |
| LogInserterService.InsertJavaMethodLogs | src/main/kotlin/com/github/kiolk/loggingplugin/services/LogInserterService.kt:52-68 | The loop over the snapshot leaves the file as `Run` specifies. |
| LogInserterService.InsertJavaAssignmentLogs | src/main/kotlin/com/github/kiolk/loggingplugin/services/LogInserterService.kt:70-84 | The loop over the snapshot leaves the file as `Run` specifies. |
| LogInserterService.SelectJavaLogs | src/main/kotlin/com/github/kiolk/loggingplugin/services/LogInserterService.kt:91-92 | The filter returns the set `JavaSelected` specifies. |
| LogInserterService.SelectKotlinLogs | src/main/kotlin/com/github/kiolk/loggingplugin/services/LogInserterService.kt:94-106 | The call loop returns the set `KotlinSelected` specifies. |
| LogInserterService.RemoveLogs | src/main/kotlin/com/github/kiolk/loggingplugin/services/LogInserterService.kt:86-109 | The file becomes `Removed` of the old tree: the Java or the Kotlin selection deleted. A file in another language is left unchanged. |
| RemovalProperties.JavaSelectedExactly | src/main/kotlin/com/github/kiolk/loggingplugin/services/LogInserterService.kt:92 | A statement is selected if and only if it is a candidate whose text matches some pattern. |
| RemovalProperties.JavaRemovalExactly | src/main/kotlin/com/github/kiolk/loggingplugin/services/LogInserterService.kt:90-92 | In Java, removal deletes exactly the expression statements strictly inside the scope whose text contains the tag. |
| RemovalProperties.KotlinSelectedExactly | src/main/kotlin/com/github/kiolk/loggingplugin/services/LogInserterService.kt:96-106 | A node is selected if and only if some matching call climbs through qualified parents to it, and its parent is a block or a named function. |
| RemovalProperties.KotlinRemovalExactly | src/main/kotlin/com/github/kiolk/loggingplugin/services/LogInserterService.kt:93-107 | In Kotlin, a node is deleted if and only if a call strictly inside the scope contains the tag, climbs through qualified parents to that node, and that node's parent is a block or a function. |
| RemovalProperties.KotlinRemovedMentionsTag | src/main/kotlin/com/github/kiolk/loggingplugin/services/LogInserterService.kt:97-103 | Every deleted Kotlin node contains the tag. It lies strictly inside the scope, unless the scope itself is a qualified expression that the climb left. |
| RemovalProperties.RemovedOnlyDeletes | src/main/kotlin/com/github/kiolk/loggingplugin/services/LogInserterService.kt:92 | The new file text is a subsequence of the old one. With nothing selected the tree is unchanged. |
| RemovalProperties.RemovedWithinScope | src/main/kotlin/com/github/kiolk/loggingplugin/services/LogInserterService.kt:86-109 | Removal changes only the scope's subtree. The text before and after the scope is kept. |
| RemovalProperties.RemovedMentionsTag | src/main/kotlin/com/github/kiolk/loggingplugin/services/LogInserterService.kt:90-107 | In Java and in Kotlin, every node `removeLogs` deletes contains the tag. |
| RemovalProperties.RemovedKeepsSurvivor | src/main/kotlin/com/github/kiolk/loggingplugin/services/LogInserterService.kt:86-109 | A node that neither it nor any enclosing node is deleted keeps its text, minus its own deleted descendants, in the new file text. With nothing below it deleted, it keeps its whole text. |
| RemovalProperties.UntaggedSurvives | src/main/kotlin/com/github/kiolk/loggingplugin/services/LogInserterService.kt:86-109 | In Java and in Kotlin, a node whose text lacks the tag and no enclosing node of which is deleted keeps its whole text in the new file text. |
| RemovalProperties.JavaMethodLogIsRemovable | src/main/kotlin/com/github/kiolk/loggingplugin/services/LogInserterService.kt:64-66 | A Java method log just inserted is among the statements that removal over any enclosing scope deletes. |
| RemovalProperties.KotlinFunctionLogIsRemovable | src/main/kotlin/com/github/kiolk/loggingplugin/services/LogInserterService.kt:45-48 | A Kotlin function log just inserted is among the nodes that removal over any enclosing scope deletes. |
| RemovalProperties.JavaAssignmentLogIsRemovable | src/main/kotlin/com/github/kiolk/loggingplugin/services/LogInserterService.kt:81-82 | A Java assignment log just inserted is deleted by removal over a scope holding its statement. |
| RemovalProperties.KotlinAssignmentLogIsRemovable | src/main/kotlin/com/github/kiolk/loggingplugin/services/LogInserterService.kt:28-29 | A Kotlin assignment log just inserted into a Kotlin block is deleted by removal over a scope holding its statement. |

## Left out

- The NAPIER branch of `getStrategy`: the framework enumeration has only PRINTLN and TIMBER, so `getStrategy` cannot reach `NapierStrategy` (LogStrategy.kt:92 names a constant that does not exist). The Napier strategy is still modelled and usable directly.
- Imports: the service never adds or removes an import, so the model does not claim import behaviour. Only the strategies' import accessors are modelled. The Timber tests (LogInserterServiceTest.kt:143-197 and 284-425) expect these service calls to add and remove `import timber.log.Timber`; as written, the code does neither, and the model follows the code.
- PSI construction and formatting: `createExpression`, `createStatementFromText` and `createNewLine` are foreign factory calls. A rendered log becomes one node with one opaque leaf, and a newline becomes a whitespace leaf. Parsing and reformatting are not modelled.
- Kotlin log shape: the model's Kotlin log node is a call expression directly under the block, for every strategy. That is the shape of the println log (LogStrategy.kt:32). For Timber (`Timber.tag("T").d("m")`, LogStrategy.kt:52) and Napier (`Napier.d("m", tag = "T")`, LogStrategy.kt:72), `createExpression` gives a dot-qualified expression, with the tag inside one of its selector calls. Removal still deletes the same node: the climb over qualified parents (LogInserterService.kt:99-101) goes from the tagged call up to the dot-qualified expression that sits under the block, and that is the node inserted.
- Java Napier log and the assignment pass: `createStatementFromText` parses the Java Napier log `Napier.d("m", tag = "T");` (LogStrategy.kt:78) with `tag = "T"` as an assignment expression. `insertJavaAssignmentLogs` collects that expression (LogInserterService.kt:73). So in the plugin, a Java assignment pass run after a Java method pass with Napier logs `tag` after each method log. The model's opaque log node holds no assignment, so its assignment pass leaves those logs alone. `getStrategy` cannot return Napier (see the NAPIER line above), so this arises only when the Napier strategy is used directly.
- The file root has no parent in the model. In the IDE the climbs of `isLogAlreadyPresent` and `insertAfterStatement` can go past the file into the directory. Here they stop at the file.
- Removed: deletes the whole selected set in one step. The plugin deletes the members one at a time. Java goes through the filtered pre-order statement list (LogInserterService.kt:90-92). Kotlin goes through the `mutableSetOf` set, a `LinkedHashSet`, in the order its members were first added (LogInserterService.kt:94-107). A member can lie inside one deleted earlier: a Java log statement inside a lambda inside another log statement, such as `run(() -> { System.out.println("T: x"); });`, or a Kotlin log inside an `apply { }` block that is itself a selected call. The model assumes that deleting such an already-detached member has no further effect on the file. It does not capture an exception the IDE might raise for that second `delete()`.
- The test that expects a wrapping `apply { }` block to survive removal is not stated. As written, the code also selects that outer call, and the model follows the code.
- Removal after insertion leaves the newline that preceded a Kotlin log. Only the log node itself is shown to be selected.
- Insertion followed by removal does not in general give back the original Java file. Removal deletes every expression statement in the scope whose text contains the tag, and that includes a user statement that only encloses a logged body. Examples: `list.forEach(x -> { y = x; });` after an assignment pass, or `foo(new Runnable() { public void run() {} });` after a method pass. An expression statement that held the tag before insertion is deleted too. `JavaRemovalExactly` states this deletion set. The model proves only that each inserted log is selected (`JavaMethodLogIsRemovable`, `JavaAssignmentLogIsRemovable`), not that the round trip restores the file.
- KotlinRemovedMentionsTag: a deleted Kotlin node can lie above the scope when the scope is itself a qualified expression. That is where the climb in `removeLogs` leads, and the contract states it that way.
- RemovedWithinScope: for Kotlin it requires that the scope is not itself a qualified expression, for the same reason.
- KotlinAssignmentLogIsRemovable: only for a log whose statement sits in a Kotlin block. A Kotlin assignment log lands anywhere else only in a tree that puts a Java code block around Kotlin code.
- RunMethodsIdempotent: requires that the tag and every function name hold no `{`, and that every `{` token is the text `{`. A log is spliced in behind the first `{` of a body, which can sit inside an earlier mention of the tag or the name once either holds a `{`, and then the body might no longer mention both.
- AssignmentStepIdempotent: stated per assignment only, not for a whole second assignment pass. In a chained Java assignment (`a = b = c`) two assignments share one statement. Each one's check sees only the sibling right after that statement, which after a pass is the other's log, so a second pass logs again.
- Only the Kotlin function scenario from the tests is stated as a concrete string (`KotlinMethodMessageScenario`). The full rendered test strings are covered by the general rendering lemmas.
- Service lookup (`getInstance`), the write-command transaction, persistence to XML storage, the action classes and the tool window are IDE plumbing and are not modelled.
- Which framework the actions pass to the service is not modelled. The service methods take the framework as a parameter, with PRINTLN as the default.
