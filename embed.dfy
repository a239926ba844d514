/** What the handlers put into a Discord embed. */
module Embed {

  /** An embed field: its name and its value. */
  datatype Field = Field(name: string, value: string)
}
