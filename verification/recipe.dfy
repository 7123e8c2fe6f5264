/** One attempt at one menu name (generate_recipe) and the CSV record it
    produces. The remote chat-completion call is an oracle: its answer and
    the measured elapsed time are inputs. */
module Recipe {
  import opened Wrappers

  /** One CSV record of the result file, in column order: menu name,
      reasoning text, generated text, status, request time. */
  datatype Row = Row(name: string, thinking: string, result: string, status: string, requestTime: string)

  /** The header line that save_to_csv writes in 'w' mode. */
  const Header: Row := Row("食谱名", "AI思考过程", "AI结果", "状态", "请求耗时(秒)")

  const Success: string := "success"
  const Failed: string := "failed"

  /** What a failed record's result text starts with. */
  const ErrorPrefix: string := "错误: "

  /** What the backend call did: returned a message whose reasoning and
      content fields may be absent, or raised an exception with this text. */
  datatype Answer =
    | Answered(reasoning: Option<string>, content: Option<string>)
    | Raised(message: string)

  /** One backend call: its answer and the elapsed time as written to the file. */
  datatype Call = Call(answer: Answer, elapsed: string)

  /** An absent field, like an empty one, is recorded as "". */
  function OrEmpty(field: Option<string>): string {
    match field
    case Some(text) => text
    case None => ""
  }

  /** The message of a failed record, recovered from its result text. */
  function ErrorText(result: string): Option<string> {
    if ErrorPrefix <= result then Some(result[|ErrorPrefix|..]) else None
  }

  /** generate_recipe: every call yields exactly one record; a raised
      exception becomes a failed record, never an exception. */
  function GenerateRecipe(name: string, call: Call): (r: Row)
    ensures r.name == name && r.requestTime == call.elapsed
    ensures r.status == Success <==> call.answer.Answered?
    ensures r.status == Failed <==> call.answer.Raised?
    ensures r != Header
    ensures call.answer.Answered? ==>
              r.thinking == OrEmpty(call.answer.reasoning) && r.result == OrEmpty(call.answer.content)
    ensures call.answer.Raised? ==> r.thinking == "" && ErrorText(r.result) == Some(call.answer.message)
  {
    match call.answer
    case Answered(reasoning, content) =>
      Row(name, OrEmpty(reasoning), OrEmpty(content), Success, call.elapsed)
    case Raised(message) =>
      assert (ErrorPrefix + message)[|ErrorPrefix|..] == message;
      Row(name, "", ErrorPrefix + message, Failed, call.elapsed)
  }
}
