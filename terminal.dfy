/** The raw-mode terminal as the program sees it: standard input as a stream
    of read results, standard output as the sequence of lines written to it. */
module Terminal {

  /** One byte read from standard input. */
  type Byte = x: int | 0 <= x < 256

  /** The result of one `next()` call on the byte stream of standard input:
      a byte, the end of the stream (`None`), or a failed read. */
  datatype StdinItem = Got(b: Byte) | Eof | ReadError

  /** A byte is shown as the character with the same code point (Latin-1),
      which is what the conversion from `u8` to `char` does. */
  function CharOf(b: Byte): char
  {
    b as char
  }

  /** What the program writes to standard output, one value per write.
      Text formatting is not modelled: each value names the write and the
      data it shows. */
  datatype Line =
      /** The per-branch question: branch name, first ten characters of the
          commit id, commit time, and the key legend; no line break. */
    | Prompt(name: string, shortId: string, time: int)
      /** The typed character, made visible (raw mode does not echo). */
    | Echo(c: char)
      /** The six-line help block listing the keys. */
    | Help
      /** The single line written when there is nothing to review. */
    | NoBranches
      /** The line written instead of prompting for the checked-out branch. */
    | HeadSkipped
      /** The confirmation after a deletion, with a restore hint naming the
          branch and its full commit id. */
    | Deleted(name: string, id: string)

  /** Standard input and standard output of the process. `input` holds the
      read results not yet delivered; `output` everything written so far. */
  class Console {
    var input: seq<StdinItem>
    var output: seq<Line>

    constructor (input: seq<StdinItem>)
      ensures this.input == input && output == []
    {
      this.input := input;
      output := [];
    }

    /** Delivers the next read result. */
    method Next() returns (item: StdinItem)
      requires input != []
      modifies this
      ensures item == old(input)[0] && input == old(input)[1..]
      ensures output == old(output)
    {
      item := input[0];
      input := input[1..];
    }

    /** Appends `lines` to standard output. */
    method Write(lines: seq<Line>)
      modifies this
      ensures output == old(output) + lines
      ensures input == old(input)
    {
      output := output + lines;
    }
  }
}
