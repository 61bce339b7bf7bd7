/** The operations of the wire contract and the failures a caller can see. */
module Contract {
  import opened Prelude
  import opened Sanitize

  datatype OperationKey =
    | AgentSessionsAgentAuth
    | AgentSessionsCreate
    | AgentSessionsCreateTerminalConnection
    | AgentSessionsGet
    | AgentSessionsList
    | AgentSessionsRename
    | AgentSessionsTerminate
    | CapabilitiesGet
    | MachineCreatesGet
    | MachineCreatesReconcile
    | MeGet
    | RecordsList
    | SessionsAgentAuth
    | SessionsCheckpoint
    | SessionsCreate
    | SessionsDelete
    | SessionsExec
    | SessionsGet
    | SessionsList
    | SessionsOpen
    | SessionsPause
    | SessionsResume
    | SessionsStart
    | SessionsStop
    | WorkspaceBindingsCreate
    | WorkspaceBindingsGet
    | WorkspacesSyncBegin
    | WorkspacesSyncChanges
    | WorkspacesSyncChunk
    | WorkspacesSyncChunkDownload
    | WorkspacesSyncCommit
    | WorkspacesSyncNegotiate
    | WorkspacesSyncReconcile

  datatype Verb = GET | POST | PUT | PATCH | DELETE

  /** The HTTP method of each operation, as the generated contract has it. */
  function VerbOf(key: OperationKey): Verb {
    match key
    case AgentSessionsAgentAuth => GET
    case AgentSessionsCreate => POST
    case AgentSessionsCreateTerminalConnection => POST
    case AgentSessionsGet => GET
    case AgentSessionsList => GET
    case AgentSessionsRename => PATCH
    case AgentSessionsTerminate => POST
    case CapabilitiesGet => GET
    case MachineCreatesGet => GET
    case MachineCreatesReconcile => POST
    case MeGet => GET
    case RecordsList => GET
    case SessionsAgentAuth => GET
    case SessionsCheckpoint => POST
    case SessionsCreate => POST
    case SessionsDelete => DELETE
    case SessionsExec => POST
    case SessionsGet => GET
    case SessionsList => GET
    case SessionsOpen => POST
    case SessionsPause => POST
    case SessionsResume => POST
    case SessionsStart => POST
    case SessionsStop => POST
    case WorkspaceBindingsCreate => POST
    case WorkspaceBindingsGet => GET
    case WorkspacesSyncBegin => POST
    case WorkspacesSyncChanges => GET
    case WorkspacesSyncChunk => PUT
    case WorkspacesSyncChunkDownload => GET
    case WorkspacesSyncCommit => POST
    case WorkspacesSyncNegotiate => POST
    case WorkspacesSyncReconcile => POST
  }

  /** The part of an operation's descriptor that decides how a response is treated. */
  datatype Descriptor = Descriptor(successStatus: int, problems: bool, workspaceSync: bool)

  datatype ErrorCode = ApiErrorCode | MalformedResponse

  datatype Failure =
    | Cancellation                       // DOMException "AbortError"
    | Timeout                            // DOMException "TimeoutError"
    | TransportFailure                   // TypeError "The Cuna request failed."
    | ApiFailure(status: int, code: ErrorCode, problem: Option<Json>)
    | UnexpectedFailure

  datatype Outcome = Delivered(value: Json) | Failed(failure: Failure)
}
