/** Dialog identifiers as far as the star decisions look at them. */
module Dialogs {

  /** The kind of conversation a `DialogId` designates. */
  datatype DialogType = NoDialog | User | Chat | Channel | SecretChat

  /** A dialog: its kind and the user, chat or channel identifier inside it. */
  datatype DialogId = DialogId(kind: DialogType, id: int)
}
