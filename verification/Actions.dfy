/** Agent-neutral actions and the resource families that accept them. */
module Actions {

  datatype ResourceKind = FileKind | CommandKind | GitKind | NetworkKind

  datatype FileAction = Read | Write | Delete | Rename

  datatype GitAction = Commit | Checkout | Reset | Push | ResetHard | ForcePush

  datatype Action = File(file: FileAction) | Execute | Git(git: GitAction) | Connect {
    function Kind(): ResourceKind {
      match this
      case File(_) => FileKind
      case Execute => CommandKind
      case Git(_) => GitKind
      case Connect => NetworkKind
    }
  }
}
