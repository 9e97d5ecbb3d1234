/** The LangChain document record that both scripts pass around. */
module Documents {

  /** A page or a chunk: its text and its string-valued metadata. */
  datatype Doc = Doc(pageContent: string, metadata: map<string, string>)
}
