/** The message types and the position type of the JSON wire protocol, shared by server and client. */
module Protocol {
  import opened Float32Bits

  /** A three-component float32 vector: a user's location. */
  datatype Vec3 = Vec3(x: Float32, y: Float32, z: Float32)

  const ConnectionConfirmType: string := "connection_confirm"
  const WorldUpdateType: string := "world_update"
}
