/**
 * The exceptions the configuration checks and the ordering walk raise.
 * Each `InvalidToolConfiguration` check of the source carries its own
 * message; here each message is one `ConfigIssue`.
 */
module Errors {

  datatype ConfigIssue =
    | ToolHeadingMissing      // heading "tool" not found
    | BorcaHeadingMissing     // heading "tool.borca" not found
    | BorcaNotTable           // tool.borca is not a dictionary
    | DefaultTaskMissing      // "default-task" not found
    | DefaultTaskNotString    // "default-task" is not a string
    | DefaultTaskEmpty        // "default-task" is empty
    | TaskHeadingMissing      // heading "tool.borca.task" not found
    | TaskNotList             // tool.borca.task is not a list
    | NoTasks                 // tool.borca.task is empty
    | TaskNotTable            // an element of tool.borca.task is not a dictionary
    | DuplicateTaskNames      // two tasks share a name
    | DefaultTaskUndefined    // the default task names no defined task
    | RootTaskUndefined       // the default or requested root names no defined task

  /** Python exceptions the source raises without catching them. */
  datatype PythonError =
    | KeyError(key: string)
    | AttributeError
    | TypeError
    | ValueError

  datatype Error =
    | InvalidToolConfiguration(issue: ConfigIssue)
    | InvalidTaskgraph(task: string, dependency: string)
    | ValidationError(field: string)
    | Uncaught(raised: PythonError)
}
