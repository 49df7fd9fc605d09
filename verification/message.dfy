/**
  The `Message` record (src/domain/message.py) as its three stored columns.
  The `when` timestamp is wall-clock time and is not modelled.
 */
module Messages {

  datatype Message = Message(source: string, target: string, message: string)
}
