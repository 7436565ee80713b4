/** One turn of a conversation, as the front end sends it: a role tag and its text. */
module Messages {

  datatype Message = Message(role: string, content: string)
}
